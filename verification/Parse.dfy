/** The packed 5/11/16-bit codes and the records the stages pass to each other. */
module Parse {
  import opened Bits

  const MS_MAX_CPUS: nat := 8

  // ----- packed codes -----

  const PARTNUMBER_BITS: nat := 5
  const INSTRUCTION_BITS: nat := 11
  const FIELD_BITS: nat := 16
  const MSCODE_INSTRUCTIONSHIFT: nat := FIELD_BITS
  const MSCODE_PARTNUMBERSHIFT: nat := MSCODE_INSTRUCTIONSHIFT + INSTRUCTION_BITS

  /** `mscode`; the operands are not masked, so an instruction of more than 11 bits runs into
      the part number. */
  function Mscode(part: u32, instruction: u32, field: u32): u32 {
    var p, i := Shl32(part, MSCODE_PARTNUMBERSHIFT), Shl32(instruction, MSCODE_INSTRUCTIONSHIFT);
    Pow2Values();
    OrBound(p, i, 32);
    OrBound(Or(p, i), Shl32(field, 0), 32);
    Or(Or(p, i), Shl32(field, 0))
  }

  /** `MSCODE_PARTNUMBER`, `MSCODE_INSTRUCTION` and `MSCODE_FIELD`. */
  function MscodePart(code: u32): (r: u32)
    ensures r < 32
  {
    AndLowMask(Shr(code, MSCODE_PARTNUMBERSHIFT), PARTNUMBER_BITS);
    LowBound(Shr(code, MSCODE_PARTNUMBERSHIFT), PARTNUMBER_BITS);
    Pow2Values();
    And(Shr(code, MSCODE_PARTNUMBERSHIFT), Pow2(PARTNUMBER_BITS) - 1)
  }

  function MscodeInstruction(code: u32): nat {
    And(Shr(code, MSCODE_INSTRUCTIONSHIFT), Pow2(INSTRUCTION_BITS) - 1)
  }

  function MscodeField(code: u32): nat {
    And(code, Pow2(FIELD_BITS) - 1)
  }

  /** The part and instruction bits of a code: the instruction is or-ed in below the part, and what
      leaves the word is lost. */
  function Slot(part: u32, instruction: u32): nat {
    Low(Or(Shl(part, INSTRUCTION_BITS), instruction), 16)
  }

  /** The bits of a packed code, whatever its operands. */
  lemma PackedBits(part: u32, instruction: u32, field: u32)
    ensures Low(Mscode(part, instruction, field), 16) == Low(field, 16)
    ensures Shr(Mscode(part, instruction, field), 16)
         == Or(Slot(part, instruction), Shr(field, 16))
  {
    hide Or, Shl, Shr, Low, Pow2;
    var p, i := Shl32(part, 27), Shl32(instruction, 16);
    Pow2Values();
    assert Shl32(field, 0) == field by { FieldInPlace(field); }
    UpperHalf(Shl(part, 11), 16);
    UpperHalf(instruction, 16);
    assert Shl(part, 27) == Shl(Shl(part, 11), 16) by { ShlAdd(part, 11, 16); }
    OrShr(p, i, 16);
    OrLow(p, i, 16);
    OrShr(Or(p, i), field, 16);
    OrLow(Or(p, i), field, 16);
    OrLow(Shl(part, 11), instruction, 16);
    OrOfZero(Low(field, 16));
    OrOfZero(0);
  }

  lemma FieldInPlace(field: u32)
    ensures Shl32(field, 0) == field
  {
    Pow2Values();
    SmallShr(field, 32);
  }

  lemma UpperHalf(x: nat, w: nat)
    ensures Shr(Low(Shl(x, 16), 16 + w), 16) == Low(x, w) && Low(Low(Shl(x, 16), 16 + w), 16) == 0
  {
    ShiftInWord(x, 16, w);
  }

  lemma OrOfZero(x: nat)
    ensures Or(x, 0) == x && Or(0, x) == x
  {}

  /** The field of a code is the field modulo two to its width, whatever part and instruction are: it
      decodes exactly if and only if it fits. */
  lemma FieldDecodes(part: u32, instruction: u32, field: u32)
    ensures MscodeField(Mscode(part, instruction, field)) == field % 0x1_0000
    ensures MscodeField(Mscode(part, instruction, field)) == field <==> field < 0x1_0000
  {
    hide Mscode;
    PackedBits(part, instruction, field);
    AndLowMask(Mscode(part, instruction, field), 16);
    ShiftIsDivision(field, 16);
    Pow2Values();
  }

  /** What the part and the instruction of a code decode to: the excess bits of the instruction and
      of the field are or-ed into what is above them. */
  lemma PartDecodes(part: u32, instruction: u32, field: u32)
    ensures MscodePart(Mscode(part, instruction, field))
         == Low(Or(Or(part, Shr(instruction, 11)), Shr(field, 27)), 5)
    ensures MscodeInstruction(Mscode(part, instruction, field)) == Low(Or(instruction, Shr(field, 16)), 11)
  {
    hide Or, Shl, Shr, Low, Pow2, Mscode, And;
    var code, x, f := Mscode(part, instruction, field), Or(Shl(part, 11), instruction), Shr(field, 16);
    PackedBits(part, instruction, field);
    assert Shr(code, 27) == Shr(Shr(code, 16), 11) by { ShrAdd(code, 16, 11); }
    assert Shr(field, 27) == Shr(f, 11) by { ShrAdd(field, 16, 11); }
    OrShr(Low(x, 16), f, 11);
    OrLow(Low(x, 16), f, 11);
    OrAbove(part, instruction, 11);
    LowParts(x);
    UpperPart(Shr(x, 11), Shr(f, 11));
    OrLow(instruction, f, 11);
    assert MscodePart(code) == Low(Shr(code, 27), 5) by { AndLowMask(Shr(code, 27), 5); }
    assert MscodeInstruction(code) == Low(Shr(code, 16), 11) by { AndLowMask(Shr(code, 16), 11); }
  }

  /** The 16 bits of a slot are 11 instruction bits below 5 part bits. */
  lemma LowParts(x: nat)
    ensures Shr(Low(x, 16), 11) == Low(Shr(x, 11), 5)
    ensures Low(Low(x, 16), 11) == Low(x, 11)
  {
    hide Shl, Shr, Low, Pow2;
    ShrAdd(x, 11, 5);
    LowBound(x, 11);
    Compose(Low(Shr(x, 11), 5), Low(x, 11), 11);
  }

  lemma UpperPart(x: nat, f: nat)
    ensures Low(Or(Low(x, 5), f), 5) == Low(Or(x, f), 5)
  {
    hide Or, Shl, Shr, Low, Pow2;
    OrLow(Low(x, 5), f, 5);
    OrLow(x, f, 5);
    LowBound(x, 5);
    SmallShr(Low(x, 5), 5);
  }

  /** The same for a field that fits. */
  lemma PartOfSmallField(part: u32, instruction: u32, field: u32)
    requires field < 0x1_0000
    ensures MscodePart(Mscode(part, instruction, field)) == Low(Or(part, instruction / 0x800), 5)
    ensures MscodeInstruction(Mscode(part, instruction, field)) == instruction % 0x800
  {
    hide Or, Shl, Shr, Low, Pow2, Mscode, MscodePart, MscodeInstruction;
    PartDecodes(part, instruction, field);
    Pow2Values();
    SmallShr(field, 16);
    SmallShr(field, 27);
    ShiftIsDivision(instruction, 11);
    OrOfZero(instruction);
    OrOfZero(Or(part, Shr(instruction, 11)));
  }

  /** Round trip, for a field that fits: the part survives exactly when it is in its width and the
      instruction's excess bits within that width are already set in it, the instruction exactly
      when it has no excess bits. */
  lemma CodeRoundTrip(part: u32, instruction: u32, field: u32)
    requires field < 0x1_0000
    ensures MscodeField(Mscode(part, instruction, field)) == field
    ensures MscodePart(Mscode(part, instruction, field)) == part
       <==> part < 32 && Or(part, instruction / 0x800 % 32) == part
    ensures MscodeInstruction(Mscode(part, instruction, field)) == instruction <==> instruction < 0x800
    ensures part < 32 && instruction < 0x800 ==> MscodePart(Mscode(part, instruction, field)) == part
  {
    hide Or, Shl, Shr, Low, Pow2, Mscode, MscodeField, MscodeInstruction;
    PartOfSmallField(part, instruction, field);
    FieldDecodes(part, instruction, field);
    PartInWidth(part, instruction / 0x800);
    OrOfZero(part);
  }

  lemma PartInWidth(part: nat, x: nat)
    ensures part < 32 ==> Low(Or(part, x), 5) == Or(part, x % 32)
    ensures Low(Or(part, x), 5) < 32
  {
    hide Or, Shl, Shr, Low, Pow2;
    Pow2Values();
    OrLow(part, x, 5);
    SmallShr(part, 5);
    ShiftIsDivision(x, 5);
    LowBound(Or(part, x), 5);
  }

  /** GICC_DIR, at offset 0x1000 of part 8, decodes as part 10; GICD_ITARGETSR, at offset 0x800
      of part 9, keeps its part. */
  lemma PartOverflowExamples()
    ensures MscodePart(Mscode(GICC_V2, 0x1000, 0)) == GICH_V2
    ensures MscodePart(Mscode(GICD_V2, 0x800, 0)) == GICD_V2
  {
    hide Or, Low, Mscode, MscodePart;
    PartOfSmallField(GICC_V2, 0x1000, 0);
    PartOfSmallField(GICD_V2, 0x800, 0);
    PartInWidth(8, 2);
    PartInWidth(9, 1);
    ExampleBits();
  }

  lemma ExampleBits()
    ensures Or(8, 2) == 10 && Or(9, 1) == 9
  {
    assert Or(8, 2) == 10 by { assert Or(4, 1) == 5; }
    assert Or(9, 1) == 9 by { assert Or(4, 0) == 4; }
  }

  /** Two codes with fields that fit are equal exactly when their slots and their fields are. */
  lemma CodesEqual(p: u32, i: u32, f: u32, p': u32, i': u32, f': u32)
    requires f < 0x1_0000 && f' < 0x1_0000
    ensures Mscode(p, i, f) == Mscode(p', i', f') <==> Slot(p, i) == Slot(p', i') && f == f'
  {
    hide Or, Shl, Shr, Low, Pow2, Mscode, Slot;
    CodeParts(p, i, f);
    CodeParts(p', i', f');
  }

  lemma CodeParts(p: u32, i: u32, f: u32)
    requires f < 0x1_0000
    ensures Mscode(p, i, f) == Shl(Slot(p, i), 16) + f
    ensures Shr(Mscode(p, i, f), 16) == Slot(p, i) && Low(Mscode(p, i, f), 16) == f
  {
    hide Or, Shl, Shr, Low, Pow2, Mscode, Slot;
    Pow2Values();
    PackedBits(p, i, f);
    SmallShr(f, 16);
    OrOfZero(Slot(p, i));
    ShrLow(Mscode(p, i, f), 16);
  }

  /** Distinct in-width part and instruction pairs have distinct slots. */
  lemma InWidthSlots(p: u32, i: u32, p': u32, i': u32)
    requires p < 32 && p' < 32 && i < 0x800 && i' < 0x800
    ensures Slot(p, i) == Slot(p', i') <==> p == p' && i == i'
  {
    hide Or, Shl, Shr, Low, Pow2, Slot;
    Pow2Values();
    InWidthSlot(p, i);
    InWidthSlot(p', i');
    Compose(p, i, 11);
    Compose(p', i', 11);
  }

  lemma InWidthSlot(p: u32, i: u32)
    requires p < 32 && i < 0x800
    ensures Slot(p, i) == Shl(p, 11) + i
  {
    hide Or, Shl, Shr, Low, Pow2;
    Pow2Values();
    OrDisjoint(p, i, 11);
    Compose(p, i, 11);
    SmallShr(p, 5);
    ShrAdd(Shl(p, 11) + i, 11, 5);
    SmallShr(Shl(p, 11) + i, 16);
  }

  /** Codes of memory-mapped parts, 8 and up, are never bare system-register codes, and decode to a
      part that is memory-mapped too, whatever instruction and field are. */
  lemma DeviceCodesApart(part: u32, instruction: u32, field: u32)
    requires 8 <= part % 32
    ensures Mscode(part, instruction, field) > 0x800
    ensures MscodePart(Mscode(part, instruction, field)) >= 8
  {
    hide Or, Shl, Shr, Low, Pow2, Mscode;
    var code, x := Mscode(part, instruction, field), Or(part, Shr(instruction, 11));
    PartDecodes(part, instruction, field);
    Pow2Values();
    OrLow(x, Shr(field, 27), 5);
    OrLow(part, Shr(instruction, 11), 5);
    OrLower(Low(x, 5), Low(Shr(field, 27), 5));
    OrLower(Low(part, 5), Low(Shr(instruction, 11), 5));
    ShiftIsDivision(part, 5);
    AndLowMask(Shr(code, 27), 5);
    if code <= 0x800 {
      SmallShr(code, 27);
      LowOfZero(5);
    }
  }

  /** Slots of system parts, below 8, and of memory-mapped parts never coincide. */
  lemma DeviceSlotsApart(p: u32, i: u32, p': u32, i': u32)
    requires p < 8 && i < 0x800 && 8 <= p' % 32
    ensures Slot(p, i) != Slot(p', i')
  {
    hide Mscode, MscodePart, MscodeInstruction, Slot;
    CodeParts(p, i, 0);
    CodeParts(p', i', 0);
    CodeRoundTrip(p, i, 0);
    DeviceCodesApart(p', i', 0);
  }

  // ----- architectures, implementations and parts -----

  const ARCH_ARMV7A := 0
  const ARCH_ARMV8A := 1
  const IMPL_CORTEX_A7 := 2
  const IMPL_CORTEX_A9 := 3
  const IMPL_CORTEX_A15 := 4
  const IMPL_CORTEX_A53 := 5
  const IMPL_CORTEX_A57 := 6
  const IMPL_ALL := 7
  const GICC_V2 := 8
  const GICD_V2 := 9
  const GICH_V2 := 10
  const GICV_V2 := 11

  const PPN_CORTEX_A7 := 0xC07
  const PPN_CORTEX_A9 := 0xC09
  const PPN_CORTEX_A15 := 0xC0F
  const PPN_CORTEX_A53 := 0xD03
  const PPN_CORTEX_A57 := 0xD07

  /** `get_arch_from_impl`; -1 when unknown. */
  function ArchFromImpl(impl: int): int {
    if impl == IMPL_CORTEX_A15 || impl == IMPL_CORTEX_A7 || impl == IMPL_CORTEX_A9 then ARCH_ARMV7A
    else if impl == IMPL_CORTEX_A53 || impl == IMPL_CORTEX_A57 then ARCH_ARMV8A
    else -1
  }

  /** The primary part number field of a MIDR. */
  function PrimaryPart(midr: u32): nat {
    And(Shr(midr, 4), 0xFFF)
  }

  /** `get_impl_from_midr`; -1 when unknown. */
  function ImplFromMidr(midr: u32): int {
    var ppn := PrimaryPart(midr);
    if ppn == PPN_CORTEX_A7 then IMPL_CORTEX_A7
    else if ppn == PPN_CORTEX_A9 then IMPL_CORTEX_A9
    else if ppn == PPN_CORTEX_A15 then IMPL_CORTEX_A15
    else if ppn == PPN_CORTEX_A53 then IMPL_CORTEX_A53
    else if ppn == PPN_CORTEX_A57 then IMPL_CORTEX_A57
    else -1
  }

  /** `get_arch_from_midr`; -1 when unknown. */
  function ArchFromMidr(midr: u32): int {
    if ImplFromMidr(midr) == -1 then -1 else ArchFromImpl(ImplFromMidr(midr))
  }

  // ----- records -----

  const NS_PRIVILEGE_LEVEL_0: u32 := 1
  const NS_PRIVILEGE_LEVEL_1: u32 := 2
  const PREFERRED_PL: u32 := 32

  /** The text of a C string, up to its terminator. */
  datatype Label = Label(text: string)

  datatype Status = Success | IllegalInst | UndefInst | Smp | SmpSingle | NoResult | TableError

  /** A row of a static decode table (`bitfield_info`). */
  datatype BitfieldInfo = BitfieldInfo(
    range: nat, uid: u32, registerUid: u32, ppl: u32, rightshift: nat, mask: nat,
    bitfield: Label, functionalGroup: Label, registerName: Label, description: Label)

  datatype TableType = TypeImpl | TypeArch | TypeMm

  /** A decode table (`bitfield_table_entry`). */
  datatype Table = Table(tableType: TableType, part: u32, rows: seq<BitfieldInfo>)

  /** A row of the expanded table (`bitfield_info_heap`). */
  datatype HeapRow = HeapRow(
    tableType: TableType, registerName: Label, range: nat, uid: u32, registerUid: u32, ppl: u32,
    rightshift: nat, mask: nat, bitfield: Label, functionalGroup: Label, description: Label)

  /** What a query asks for (`match_info`). */
  datatype MatchInfo = MatchInfo(
    architecture: u32, implementation: u32, functionalGroup: Label, registerName: Label,
    uid: u32, pl: u32, noparse: u32, cpu: u32, supplied: u32, calcValue: u64)

  /** A requested bitfield (`results_info`). */
  datatype Request = Request(
    registerUid: u32, uid: u32, ppl: u32, pl: u32, cpu: u32, noparse: u32, part: u32,
    supplied: u32, calcValue: u64)

  /** A register to be read (`used_ioctl`). */
  datatype UsedIoctl = UsedIoctl(registerUid: u32, cpu: u32, part: u32)

  /** The raw result of one read on one CPU (`ioctl_result`). */
  datatype IoctlResult = IoctlResult(
    registerUid: u32, val64: u64, low: u32, high: u32, cpu: u32, midr: u32, epl: u32, status: Status)

  /** A decoded bitfield (`bitfield_info_populated`). */
  datatype Populated = Populated(
    uid: u32, ioctl: u32, value: nat, uvalue: nat, cpu: u32, epl: u32, midr: u32, status: Status,
    bitfield: Label, functionalGroup: Label, registerName: Label, description: Label)
}
