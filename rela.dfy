/** A 32-bit relocation entry with addend (Elf32_Rela, chapter 4 of the
    System V gABI) and the RISC-V relocation numbers the loader declares
    ("Relocations" chapter of the RISC-V ELF psABI). */
module Relas {
  import opened Common

  datatype Rela = Rela(r_offset: bv32, r_info: bv32, r_addend: bv32)

  datatype RelaType =
    | RISCV_32 | RISCV_64 | BRANCH | CALL | CALL_PLT | PCREL_HI20 | PCREL_LO12_I
    | PCREL_LO12_S | HI20 | LO12_I | LO12_S | RVC_BRANCH | RVC_JUMP | RELAX

  /** The psABI number of each kind. */
  function RelaTypeCode(t: RelaType): bv32
  {
    match t
    case RISCV_32 => 1
    case RISCV_64 => 2
    case BRANCH => 16
    case CALL => 18
    case CALL_PLT => 19
    case PCREL_HI20 => 23
    case PCREL_LO12_I => 24
    case PCREL_LO12_S => 25
    case HI20 => 26
    case LO12_I => 27
    case LO12_S => 28
    case RVC_BRANCH => 44
    case RVC_JUMP => 45
    case RELAX => 51
  }

  /** The numbers that name a declared kind; reinterpreting any other number
      as a RelaType is not defined. */
  predicate IsKnownRelaType(n: bv32)
  {
    || n == 1 || n == 2 || n == 16 || n == 18 || n == 19 || (23 <= n <= 28)
    || n == 44 || n == 45 || n == 51
  }

  function RelaOffset(r: Rela): (o: bv32)
    ensures o == r.r_offset
  {
    r.r_offset
  }

  /** The addend as the signed machine word `isize`. */
  function RelaAddend(r: Rela): (a: int)
    ensures -0x8000_0000 <= a < 0x8000_0000
    ensures a == r.r_addend as int || a == r.r_addend as int - 0x1_0000_0000
    ensures a < 0 <==> r.r_addend & 0x8000_0000 != 0
  {
    var n: int := r.r_addend as int;
    assert 0 <= n < 0x1_0000_0000;
    if n < 0x8000_0000 then n else n - 0x1_0000_0000
  }

  /** ELF32_R_SYM: the symbol index in the upper 24 bits. */
  function SymbolOffset(r: Rela): (i: usize)
    ensures i < 0x100_0000
    ensures i == (r.r_info >> 8) as int
  {
    (r.r_info >> 8) as int
  }

  /** ELF32_R_TYPE: the relocation number in the low 8 bits. */
  function RawRelaType(r: Rela): (t: bv32)
    ensures t < 0x100
    ensures t == r.r_info & 0xff
  {
    r.r_info & 0xff
  }

  /** The relocation number read as a kind. */
  function RelaTypeOf(r: Rela): (t: RelaType)
    requires IsKnownRelaType(RawRelaType(r))
    ensures RelaTypeCode(t) == RawRelaType(r)
  {
    var n := RawRelaType(r);
    if n == 1 then RISCV_32
    else if n == 2 then RISCV_64
    else if n == 16 then BRANCH
    else if n == 18 then CALL
    else if n == 19 then CALL_PLT
    else if n == 23 then PCREL_HI20
    else if n == 24 then PCREL_LO12_I
    else if n == 25 then PCREL_LO12_S
    else if n == 26 then HI20
    else if n == 27 then LO12_I
    else if n == 28 then LO12_S
    else if n == 44 then RVC_BRANCH
    else if n == 45 then RVC_JUMP
    else RELAX
  }

  /** Every declared kind is known, and reading its number back gives it. */
  lemma RelaTypeRoundTrip(r: Rela, t: RelaType)
    requires RawRelaType(r) == RelaTypeCode(t)
    ensures IsKnownRelaType(RawRelaType(r)) && RelaTypeOf(r) == t
  {
  }

  /** Symbol index and type together give back r_info
      (ELF32_R_INFO(ELF32_R_SYM(i), ELF32_R_TYPE(i)) == i). */
  lemma InfoRoundTrip(r: Rela)
    ensures ((r.r_info >> 8) << 8) | RawRelaType(r) == r.r_info
  {
  }

  /** Packing a symbol index and a type into r_info and decoding gives them back. */
  lemma InfoFromParts(r: Rela, sym: bv32, typ: bv32)
    requires sym < 0x100_0000 && typ < 0x100
    requires r.r_info == (sym << 8) | typ
    ensures SymbolOffset(r) == sym as int && RawRelaType(r) == typ
  {
  }
}
