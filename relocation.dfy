/** The RISC-V relocation engine of src/elf.rs (`ELFFile::relocateadd`):
    bit-exact read-modify-write of 32-bit and 16-bit instruction words at a
    target address. Immediate layouts are those of section 2.3 "Immediate
    Encoding Variants" and of the compressed-instruction chapter (CJ and CB
    formats) of the RISC-V Unprivileged ISA. Signed `isize` arithmetic on the
    32-bit target is modelled as wrapping arithmetic on `bv32`. */
module Relocation {
  import opened Common
  import opened Memory
  import opened Relas
  import opened Symbols

  // ---------------------------------------------------------------------
  // The hi20/lo12 split of a 32-bit quantity

  /** `(x + 0x800) & 0xfffff000`: the upper 20 bits, rounded so that the
      remaining lower part fits a signed 12-bit immediate. */
  function Hi20(x: bv32): bv32
  {
    (x + 0x800) & 0xfffff000
  }

  /** `(x - hi20) & 0xfff`: the lower 12 bits left over. */
  function Lo12(x: bv32): bv32
  {
    (x - Hi20(x)) & 0xfff
  }

  /** The value of a 12-bit two's-complement field, as a 32-bit word. */
  function SignExtend12(l: bv32): (r: bv32)
    requires l <= 0xfff
    ensures r & 0xfff == l
  {
    if l & 0x800 != 0 then l | 0xfffff000 else l
  }

  /** hi20 has its low 12 bits clear, so it fits the U-type immediate field. */
  lemma Hi20LowBitsZero(x: bv32)
    ensures Hi20(x) & 0xfff == 0
    ensures Lo12(x) <= 0xfff
  {
  }

  /** The rounding lemma: hi20 plus the sign-extended lo12 is the original
      quantity again (modulo 2^32). */
  lemma Hi20Lo12Sum(x: bv32)
    ensures Lo12(x) <= 0xfff
    ensures Hi20(x) + SignExtend12(Lo12(x)) == x
  {
  }

  // ---------------------------------------------------------------------
  // Patching instruction words; decoding the fields they write

  /** U-type (auipc, lui): keep bits 11:0, put `hi20` into bits 31:12. */
  function PatchU(w: bv32, hi20: bv32): bv32
  {
    (w & 0xfff) | hi20
  }

  /** I-type (addi, jalr, loads): keep bits 19:0, put lo12 into bits 31:20. */
  function PatchI(w: bv32, lo12: bv32): bv32
  {
    (w & 0xfffff) | (lo12 << 20)
  }

  /** S-type (stores): keep the mask 0x1fff07f, lo12[11:5] into bits 31:25
      and lo12[4:0] into bits 11:7. */
  function PatchS(w: bv32, lo12: bv32): bv32
  {
    (w & 0x1fff07f) | ((lo12 & 0xfe0) << 20) | ((lo12 & 0x1f) << 7)
  }

  /** LO12_I as the loader writes it: it keeps only bits 11:0 before putting
      lo12 into bits 31:20, so bits 19:12 (rs1 and funct3) are lost. */
  function PatchLo12I(w: bv32, lo12: bv32): bv32
  {
    (w & 0xfff) | (lo12 << 20)
  }

  /** The immediate an instruction word holds in each format. */
  function UImm(w: bv32): bv32 { w & 0xfffff000 }
  function IImm(w: bv32): bv32 { SignExtend12(w >> 20) }
  function SImm(w: bv32): bv32 { SignExtend12(((w >> 20) & 0xfe0) | ((w >> 7) & 0x1f)) }

  /** PatchU writes exactly the U immediate and keeps the rest; patching
      twice with the same hi20 is patching once. */
  lemma PatchUFields(w: bv32, hi20: bv32)
    requires hi20 & 0xfff == 0
    ensures PatchU(w, hi20) & 0xfff == w & 0xfff
    ensures UImm(PatchU(w, hi20)) == hi20
    ensures PatchU(PatchU(w, hi20), hi20) == PatchU(w, hi20)
  {
  }

  /** PatchI writes exactly the I immediate and keeps the rest. */
  lemma PatchIFields(w: bv32, lo12: bv32)
    requires lo12 <= 0xfff
    ensures PatchI(w, lo12) & 0xfffff == w & 0xfffff
    ensures IImm(PatchI(w, lo12)) == SignExtend12(lo12)
    ensures PatchI(PatchI(w, lo12), lo12) == PatchI(w, lo12)
  {
  }

  /** PatchS writes exactly the S immediate and keeps the rest. */
  lemma PatchSFields(w: bv32, lo12: bv32)
    requires lo12 <= 0xfff
    ensures PatchS(w, lo12) & 0x1fff07f == w & 0x1fff07f
    ensures SImm(PatchS(w, lo12)) == SignExtend12(lo12)
    ensures PatchS(PatchS(w, lo12), lo12) == PatchS(w, lo12)
  {
  }

  /** LO12_I keeps bits 11:0, zeroes bits 19:12 and still holds lo12 as its
      I immediate. */
  lemma PatchLo12IFields(w: bv32, lo12: bv32)
    requires lo12 <= 0xfff
    ensures PatchLo12I(w, lo12) & 0xfff == w & 0xfff
    ensures PatchLo12I(w, lo12) & 0xff000 == 0
    ensures IImm(PatchLo12I(w, lo12)) == SignExtend12(lo12)
    ensures PatchLo12I(PatchLo12I(w, lo12), lo12) == PatchLo12I(w, lo12)
  {
  }

  /** `addi a0, a0, 0` (0x00050513) patched by LO12_I loses its source
      register: rs1 (bits 19:15) becomes x0, so it reads `addi a0, zero, lo12`. */
  lemma Lo12IDropsSourceRegister(lo12: bv32)
    requires lo12 <= 0xfff
    ensures (0x00050513 as bv32 >> 15) & 0x1f == 10
    ensures (PatchLo12I(0x00050513, lo12) >> 15) & 0x1f == 0
    ensures (PatchI(0x00050513, lo12) >> 15) & 0x1f == 10
  {
  }

  /** A call 0x1800 bytes ahead: hi20 rounds up to 0x2000 and lo12 is 0x800,
      that is -0x800 once sign-extended. `auipc ra, 0` becomes `auipc ra, 2`
      and `jalr ra, 0(ra)` becomes `jalr ra, -2048(ra)`. */
  lemma CallRoundingExample()
    ensures Hi20(0x2800 - 0x1000) == 0x2000 && Lo12(0x2800 - 0x1000) == 0x800
    ensures PatchU(0x00000097, Hi20(0x2800 - 0x1000)) == 0x00002097
    ensures PatchI(0x000080e7, Lo12(0x2800 - 0x1000)) == 0x800080e7
  {
  }

  /** B-type immediate of `offset`: imm[12] to bit 31, imm[11] to bit 7,
      imm[10:5] to bits 30:25, imm[4:1] to bits 11:8. */
  function BEncode(offset: bv32): bv32
  {
    ((offset & 0x1000) << 19) | ((offset & 0x800) >> 4) | ((offset & 0x7e0) << 20) | ((offset & 0x1e) << 7)
  }

  /** The B-type immediate held in an instruction word (without its sign). */
  function BDecode(w: bv32): bv32
  {
    ((w >> 19) & 0x1000) | ((w << 4) & 0x800) | ((w >> 20) & 0x7e0) | ((w >> 7) & 0x1e)
  }

  /** The B encoding fills only the immediate bits 0xfe000f80, and encode and
      decode are inverse on those bits and on offset bits 12:1. */
  lemma BEncodeRoundTrip(offset: bv32, w: bv32)
    ensures BEncode(offset) & 0xfe000f80 == BEncode(offset)
    ensures BDecode(BEncode(offset)) == offset & 0x1ffe
    ensures BEncode(BDecode(w)) == w & 0xfe000f80
  {
  }

  /** The 16-bit truncation `offset as u16`. */
  function Low16(x: bv32): bv16
  {
    (x & 0xffff) as bv16
  }

  /** CJ-format immediate (c.j, c.jal) of `offset`: bits 12:2 hold
      imm[11|4|9:8|10|6|7|3:1|5]. */
  function CJEncode(o: bv16): bv16
  {
    ((o & 0x800) << 1) | ((o & 0x400) >> 2) | ((o & 0x300) << 1) | ((o & 0x80) >> 1)
    | ((o & 0x40) << 1) | ((o & 0x20) >> 3) | ((o & 0x10) << 7) | ((o & 0xe) << 2)
  }

  function CJDecode(h: bv16): bv16
  {
    ((h >> 1) & 0x800) | ((h << 2) & 0x400) | ((h >> 1) & 0x300) | ((h << 1) & 0x80)
    | ((h >> 1) & 0x40) | ((h << 3) & 0x20) | ((h >> 7) & 0x10) | ((h >> 2) & 0xe)
  }

  /** The CJ encoding fills only the bits 0x1ffc, and encode and decode are
      inverse on those bits and on offset bits 11:1. */
  lemma CJEncodeRoundTrip(o: bv16, h: bv16)
    ensures CJEncode(o) & 0x1ffc == CJEncode(o)
    ensures CJDecode(CJEncode(o)) == o & 0xffe
    ensures CJEncode(CJDecode(h)) == h & 0x1ffc
  {
  }

  /** CB-format immediate (c.beqz, c.bnez) of `offset`: bits 12:10 hold
      imm[8|4:3] and bits 6:2 hold imm[7:6|2:1|5]. */
  function CBEncode(o: bv16): bv16
  {
    ((o & 0x100) << 4) | ((o & 0xc0) >> 1) | ((o & 0x20) >> 3) | ((o & 0x18) << 7) | ((o & 0x6) << 2)
  }

  function CBDecode(h: bv16): bv16
  {
    ((h >> 4) & 0x100) | ((h << 1) & 0xc0) | ((h << 3) & 0x20) | ((h >> 7) & 0x18) | ((h >> 2) & 0x6)
  }

  /** The CB encoding fills only the bits 0x1c7c, and encode and decode are
      inverse on those bits and on offset bits 8:1. */
  lemma CBEncodeRoundTrip(o: bv16, h: bv16)
    ensures CBEncode(o) & 0x1c7c == CBEncode(o)
    ensures CBDecode(CBEncode(o)) == o & 0x1fe
    ensures CBEncode(CBDecode(h)) == h & 0x1c7c
  {
  }

  // ---------------------------------------------------------------------
  // The effect of one relocation on memory

  /** How many bytes from the target address a relocation kind reads or writes. */
  function Width(t: RelaType): nat
  {
    match t
    case RELAX | PCREL_LO12_I | PCREL_LO12_S => 0
    case PCREL_HI20 | CALL | CALL_PLT => 8
    case RVC_JUMP | RVC_BRANCH => 2
    case RISCV_32 | RISCV_64 | BRANCH | HI20 | LO12_I | LO12_S => 4
  }

  /** The second word of a pc-relative pair after patching: an S-type store
      when its opcode is 0x23, an I-type instruction otherwise. */
  function PatchLo12Pair(next: bv32, lo12: bv32): bv32
  {
    if next & 0x7f == 0x23 then PatchS(next, lo12) else PatchI(next, lo12)
  }

  /** The pair patch keeps the opcode it dispatched on, and patching twice is
      patching once. */
  lemma PatchLo12PairFields(next: bv32, lo12: bv32)
    requires lo12 <= 0xfff
    ensures PatchLo12Pair(next, lo12) & 0x7f == next & 0x7f
    ensures PatchLo12Pair(PatchLo12Pair(next, lo12), lo12) == PatchLo12Pair(next, lo12)
  {
    if next & 0x7f == 0x23 {
      PatchSFields(next, lo12);
    } else {
      PatchIFields(next, lo12);
    }
  }

  /** The word an absolute HI20, LO12_I or LO12_S relocation of `value`
      leaves in place of `w`. */
  function AbsPatched(t: RelaType, w: bv32, value: bv32): bv32
    requires t == HI20 || t == LO12_I || t == LO12_S
  {
    match t
    case HI20 => PatchU(w, Hi20(value))
    case LO12_I => PatchLo12I(w, Lo12(value))
    case LO12_S => PatchS(w, Lo12(value))
  }

  /** Memory after one relocation of kind `t` for a symbol of value `value`
      with addend `addend` at target address `addr`, or the panic it ends in.
      The loader does not check the target; the model halts with
      `OutsideMemory` when the bytes a kind touches are not all in `m`. */
  function Relocated(m: seq<bv8>, t: RelaType, value: bv32, addend: bv32, addr: bv32): (r: Outcome<seq<bv8>>)
    ensures r.Returned? ==> |r.value| == |m|
  {
    var a := addr as int;
    if a + Width(t) > |m| && Width(t) > 0 then Halted(OutsideMemory)
    else match t
      case RELAX | PCREL_LO12_I | PCREL_LO12_S => Returned(m)
      case RISCV_32 | RISCV_64 => Returned(Splice(m, a, Bytes32(value + addend)))
      case PCREL_HI20 | CALL | CALL_PLT => Returned(PcrelPatched(m, a, value - addr))
      case HI20 | LO12_I | LO12_S => Returned(AbsPatchedAt(m, t, a, value))
      case BRANCH => if BranchOk(Le32(m, a), value - addr) then Returned(m) else Halted(BranchMismatch)
      case RVC_JUMP => if RvcJumpOk(Le16(m, a), value - addr) then Returned(m) else Halted(RvcJumpMismatch)
      case RVC_BRANCH => if RvcBranchOk(Le16(m, a), value - addr) then Returned(m) else Halted(RvcBranchMismatch)
  }

  /** HI20, LO12_I or LO12_S applied to the word at `a`. */
  function AbsPatchedAt(m: seq<bv8>, t: RelaType, a: nat, value: bv32): (r: seq<bv8>)
    requires t == HI20 || t == LO12_I || t == LO12_S
    requires a + 4 <= |m|
    ensures |r| == |m|
  {
    Splice(m, a, Bytes32(AbsPatched(t, Le32(m, a), value)))
  }

  /** The BRANCH `assert_eq!`: the immediate bits of the word equal the
      B encoding of the offset. */
  predicate BranchOk(w: bv32, offset: bv32)
  {
    w & 0xfe000f80 == BEncode(offset)
  }

  /** The RVC_JUMP `assert_eq!` on a halfword. */
  predicate RvcJumpOk(h: bv16, offset: bv32)
  {
    h & 0x1ffc == CJEncode(Low16(offset))
  }

  /** The RVC_BRANCH `assert_eq!` on a halfword. */
  predicate RvcBranchOk(h: bv16, offset: bv32)
  {
    h & 0x1c7c == CBEncode(Low16(offset))
  }

  /** The pc-relative pair at `a` patched for `offset`: hi20 into the auipc,
      lo12 into the instruction after it. */
  function PcrelPatched(m: seq<bv8>, a: nat, offset: bv32): (r: seq<bv8>)
    requires a + 8 <= |m|
    ensures |r| == |m|
  {
    var m1 := Splice(m, a, Bytes32(PatchU(Le32(m, a), Hi20(offset))));
    Splice(m1, a + 4, Bytes32(PatchLo12Pair(Le32(m, a + 4), Lo12(offset))))
  }

  // ---------------------------------------------------------------------
  // Properties of one relocation

  /** RELAX, PCREL_LO12_I and PCREL_LO12_S never touch memory, wherever the
      target lies. */
  lemma NoOpKinds(m: seq<bv8>, t: RelaType, value: bv32, addend: bv32, addr: bv32)
    requires t == RELAX || t == PCREL_LO12_I || t == PCREL_LO12_S
    ensures Relocated(m, t, value, addend, addr) == Returned(m)
  {
  }

  /** BRANCH, RVC_JUMP and RVC_BRANCH only check the immediate already in
      place: they leave memory as it is or panic. */
  lemma CheckOnlyKinds(m: seq<bv8>, t: RelaType, value: bv32, addend: bv32, addr: bv32)
    requires t == BRANCH || t == RVC_JUMP || t == RVC_BRANCH
    ensures Relocated(m, t, value, addend, addr) == Returned(m) || Relocated(m, t, value, addend, addr).Halted?
  {
  }

  /** BRANCH passes exactly when the B immediate already in the word is the
      offset to the symbol, bits 12:1. */
  lemma BranchCheck(w: bv32, offset: bv32)
    ensures BranchOk(w, offset) <==> BDecode(w) == offset & 0x1ffe
  {
  }

  /** RVC_JUMP passes exactly when the CJ immediate already in the halfword is
      the offset to the symbol, bits 11:1. */
  lemma RvcJumpCheck(h: bv16, offset: bv32)
    ensures RvcJumpOk(h, offset) <==> CJDecode(h) == Low16(offset) & 0xffe
  {
  }

  /** RVC_BRANCH passes exactly when the CB immediate already in the halfword
      is the offset to the symbol, bits 8:1. */
  lemma RvcBranchCheck(h: bv16, offset: bv32)
    ensures RvcBranchOk(h, offset) <==> CBDecode(h) == Low16(offset) & 0x1fe
  {
  }

  /** RISCV_32 and RISCV_64 store one word, `value + addend` modulo 2^32, at
      the target and change no other byte. */
  lemma AbsoluteWord(m: seq<bv8>, t: RelaType, value: bv32, addend: bv32, addr: bv32)
    requires t == RISCV_32 || t == RISCV_64
    requires addr as int + 4 <= |m|
    ensures Relocated(m, t, value, addend, addr) == Returned(Splice(m, addr as int, Bytes32(value + addend)))
  {
  }

  /** Symbol value 0x80001000 with addend 4 stores the bytes of 0x80001004. */
  lemma AbsoluteWordExample(m: seq<bv8>)
    requires 4 <= |m|
    ensures Relocated(m, RISCV_32, 0x80001000, 4, 0) == Returned([0x04, 0x10, 0x00, 0x80] + m[4..])
  {
    var b: seq<bv8> := [0x04, 0x10, 0x00, 0x80];
    assert Bytes32(0x80001000 + 4) == b;
    assert m[..0] == [];
    assert Splice(m, 0, b) == b + m[4..];
  }

  /** PCREL_HI20, CALL and CALL_PLT rewrite the pair of words at the target
      for the pc-relative offset `value - addr`. */
  lemma PcrelKinds(m: seq<bv8>, t: RelaType, value: bv32, addend: bv32, addr: bv32)
    requires t == PCREL_HI20 || t == CALL || t == CALL_PLT
    requires addr as int + 8 <= |m|
    ensures Relocated(m, t, value, addend, addr) == Returned(PcrelPatched(m, addr as int, value - addr))
  {
  }

  /** The pair patch puts hi20 of the offset into the auipc word and lo12 into
      the word after it, and changes no byte outside the eight. */
  lemma PcrelWords(m: seq<bv8>, a: nat, off: bv32)
    requires a + 8 <= |m|
    ensures Le32(PcrelPatched(m, a, off), a) == PatchU(Le32(m, a), Hi20(off))
    ensures Le32(PcrelPatched(m, a, off), a + 4) == PatchLo12Pair(Le32(m, a + 4), Lo12(off))
    ensures forall i :: 0 <= i < |m| && !(a <= i < a + 8) ==> PcrelPatched(m, a, off)[i] == m[i]
  {
    var w0, w1 := PatchU(Le32(m, a), Hi20(off)), PatchLo12Pair(Le32(m, a + 4), Lo12(off));
    var m1 := Splice(m, a, Bytes32(w0));
    Le32Splice(m, a, w0);
    Le32SpliceElsewhere(m1, a + 4, Bytes32(w1), a);
    Le32Splice(m1, a + 4, w1);
  }

  /** HI20, LO12_I and LO12_S rewrite the one word at the target. */
  lemma AbsKinds(m: seq<bv8>, t: RelaType, value: bv32, addend: bv32, addr: bv32)
    requires t == HI20 || t == LO12_I || t == LO12_S
    requires addr as int + 4 <= |m|
    ensures Relocated(m, t, value, addend, addr) == Returned(AbsPatchedAt(m, t, addr as int, value))
    ensures Le32(AbsPatchedAt(m, t, addr as int, value), addr as int) == AbsPatched(t, Le32(m, addr as int), value)
  {
    AbsWord(m, t, addr as int, value);
  }

  /** The patched word reads back as the patched value. */
  lemma AbsWord(m: seq<bv8>, t: RelaType, a: nat, value: bv32)
    requires t == HI20 || t == LO12_I || t == LO12_S
    requires a + 4 <= |m|
    ensures Le32(AbsPatchedAt(m, t, a, value), a) == AbsPatched(t, Le32(m, a), value)
  {
    Le32Splice(m, a, AbsPatched(t, Le32(m, a), value));
  }

  /** Applying the same relocation a second time changes nothing more: every
      kind writes only fields it derives from the symbol and the address, and
      keeps the bits (the opcode among them) it reads. */
  lemma RelocatedIdempotent(m: seq<bv8>, t: RelaType, value: bv32, addend: bv32, addr: bv32)
    requires Relocated(m, t, value, addend, addr).Returned?
    ensures Relocated(Relocated(m, t, value, addend, addr).value, t, value, addend, addr)
         == Relocated(m, t, value, addend, addr)
  {
    var a := addr as int;
    match t
    case RISCV_32 | RISCV_64 =>
      var r := Splice(m, a, Bytes32(value + addend));
      AbsoluteWord(m, t, value, addend, addr);
      AbsoluteWord(r, t, value, addend, addr);
      SpliceTwice(m, a, Bytes32(value + addend));
    case HI20 | LO12_I | LO12_S =>
      var r := AbsPatchedAt(m, t, a, value);
      AbsKinds(m, t, value, addend, addr);
      AbsKinds(r, t, value, addend, addr);
      AbsIdempotent(m, t, a, value);
    case PCREL_HI20 | CALL | CALL_PLT =>
      var r := PcrelPatched(m, a, value - addr);
      PcrelKinds(m, t, value, addend, addr);
      PcrelKinds(r, t, value, addend, addr);
      PcrelIdempotent(m, a, value - addr);
    case RELAX | PCREL_LO12_I | PCREL_LO12_S | BRANCH | RVC_JUMP | RVC_BRANCH =>
      CheckOnlyOrNoOp(m, t, value, addend, addr);
  }

  lemma CheckOnlyOrNoOp(m: seq<bv8>, t: RelaType, value: bv32, addend: bv32, addr: bv32)
    requires t in {RELAX, PCREL_LO12_I, PCREL_LO12_S, BRANCH, RVC_JUMP, RVC_BRANCH}
    requires Relocated(m, t, value, addend, addr).Returned?
    ensures Relocated(m, t, value, addend, addr) == Returned(m)
  {
  }

  /** A second splice over the same bytes with the same data changes nothing. */
  lemma SpliceTwice(m: seq<bv8>, a: nat, d: seq<bv8>)
    requires a + |d| <= |m|
    ensures Splice(Splice(m, a, d), a, d) == Splice(m, a, d)
  {
  }

  /** A splice of the bytes already in place changes nothing. */
  lemma SpliceWordInPlace(m: seq<bv8>, a: nat, w: bv32)
    requires a + 4 <= |m| && Le32(m, a) == w
    ensures Splice(m, a, Bytes32(w)) == m
  {
    Bytes32Le32(m, a);
    SpliceSame(m, a, 4);
  }

  lemma AbsIdempotent(m: seq<bv8>, t: RelaType, a: nat, value: bv32)
    requires t == HI20 || t == LO12_I || t == LO12_S
    requires a + 4 <= |m|
    ensures AbsPatchedAt(AbsPatchedAt(m, t, a, value), t, a, value) == AbsPatchedAt(m, t, a, value)
  {
    var w := AbsPatched(t, Le32(m, a), value);
    var r := Splice(m, a, Bytes32(w));
    Le32Splice(m, a, w);
    Hi20LowBitsZero(value);
    match t
    case HI20 => PatchUFields(Le32(m, a), Hi20(value));
    case LO12_I => PatchLo12IFields(Le32(m, a), Lo12(value));
    case LO12_S => PatchSFields(Le32(m, a), Lo12(value));
    assert AbsPatched(t, w, value) == w;
    SpliceWordInPlace(r, a, w);
  }

  lemma PcrelIdempotent(m: seq<bv8>, a: nat, off: bv32)
    requires a + 8 <= |m|
    ensures PcrelPatched(PcrelPatched(m, a, off), a, off) == PcrelPatched(m, a, off)
  {
    var r := PcrelPatched(m, a, off);
    var w0, w1 := PatchU(Le32(m, a), Hi20(off)), PatchLo12Pair(Le32(m, a + 4), Lo12(off));
    PcrelWords(m, a, off);
    Hi20LowBitsZero(off);
    PatchUFields(Le32(m, a), Hi20(off));
    PatchLo12PairFields(Le32(m, a + 4), Lo12(off));
    var r1 := Splice(r, a, Bytes32(PatchU(Le32(r, a), Hi20(off))));
    SpliceWordInPlace(r, a, w0);
    assert r1 == r;
    SpliceWordInPlace(r, a + 4, w1);
  }

  // ---------------------------------------------------------------------
  // The in-place engine

  /** `ELFFile::relocateadd`: applies relocation `rela` for symbol `sym` at
      address `addr` of `mem`. On a panic (`fault` is `Some`) memory is left
      as it was before the call. */
  method RelocateAdd(mem: array<bv8>, rela: Rela, sym: Symbol, addr: bv32) returns (fault: Option<Fault>)
    requires IsKnownRelaType(RawRelaType(rela))
    modifies mem
    ensures Relocated(old(mem[..]), RelaTypeOf(rela), SymbolValue(sym), rela.r_addend, addr)
         == if fault.None? then Returned(mem[..]) else Halted(fault.value)
    ensures fault.Some? ==> mem[..] == old(mem[..])
  {
    fault := Apply(mem, RelaTypeOf(rela), SymbolValue(sym), rela.r_addend, addr);
  }

  /** The `match` on the relocation kind. */
  method Apply(mem: array<bv8>, t: RelaType, value: bv32, addend: bv32, addr: bv32) returns (fault: Option<Fault>)
    modifies mem
    ensures Relocated(old(mem[..]), t, value, addend, addr)
         == if fault.None? then Returned(mem[..]) else Halted(fault.value)
    ensures fault.Some? ==> mem[..] == old(mem[..])
  {
    var a := addr as int;
    if a + Width(t) > mem.Length && Width(t) > 0 {
      return Some(OutsideMemory);
    }
    if t.BRANCH? || t.RVC_JUMP? || t.RVC_BRANCH? {
      fault := ApplyCheck(mem, t, value, addend, addr);
    } else {
      ApplyPatch(mem, t, value, addend, addr);
      fault := None;
    }
  }

  /** The kinds that rewrite memory, once the target is known to be in it. */
  method ApplyPatch(mem: array<bv8>, t: RelaType, value: bv32, addend: bv32, addr: bv32)
    requires !(t.BRANCH? || t.RVC_JUMP? || t.RVC_BRANCH?)
    requires Width(t) > 0 ==> addr as int + Width(t) <= mem.Length
    modifies mem
    ensures Relocated(old(mem[..]), t, value, addend, addr) == Returned(mem[..])
  {
    var a := addr as int;
    match t {
      case RELAX | PCREL_LO12_I | PCREL_LO12_S =>
      case RISCV_32 | RISCV_64 =>
        Write32(mem, a, value + addend);
      case PCREL_HI20 | CALL | CALL_PLT =>
        PatchPcrel(mem, a, value - addr);
      case HI20 | LO12_I | LO12_S =>
        PatchAbs(mem, t, a, value);
    }
  }

  /** The kinds that only check the immediate already in place. */
  method ApplyCheck(mem: array<bv8>, t: RelaType, value: bv32, addend: bv32, addr: bv32) returns (fault: Option<Fault>)
    requires t.BRANCH? || t.RVC_JUMP? || t.RVC_BRANCH?
    requires addr as int + Width(t) <= mem.Length
    ensures Relocated(mem[..], t, value, addend, addr)
         == if fault.None? then Returned(mem[..]) else Halted(fault.value)
  {
    var a := addr as int;
    fault := None;
    match t {
      case BRANCH =>
        var w := Read32(mem, a);
        if !BranchOk(w, value - addr) {
          fault := Some(BranchMismatch);
        }
      case RVC_JUMP =>
        var h := Read16(mem, a);
        if !RvcJumpOk(h, value - addr) {
          fault := Some(RvcJumpMismatch);
        }
      case RVC_BRANCH =>
        var h := Read16(mem, a);
        if !RvcBranchOk(h, value - addr) {
          fault := Some(RvcBranchMismatch);
        }
    }
  }

  /** The auipc write followed by the read-modify-write of the next word. */
  method PatchPcrel(mem: array<bv8>, a: nat, offset: bv32)
    requires a + 8 <= mem.Length
    modifies mem
    ensures mem[..] == PcrelPatched(old(mem[..]), a, offset)
  {
    var w := Read32(mem, a);
    Write32(mem, a, PatchU(w, Hi20(offset)));
    var next := Read32(mem, a + 4);
    Le32SpliceElsewhere(old(mem[..]), a, Bytes32(PatchU(w, Hi20(offset))), a + 4);
    Write32(mem, a + 4, PatchLo12Pair(next, Lo12(offset)));
  }

  /** Read-modify-write of the word at `a` for HI20, LO12_I or LO12_S. */
  method PatchAbs(mem: array<bv8>, t: RelaType, a: nat, value: bv32)
    requires t == HI20 || t == LO12_I || t == LO12_S
    requires a + 4 <= mem.Length
    modifies mem
    ensures mem[..] == AbsPatchedAt(old(mem[..]), t, a, value)
  {
    var w := Read32(mem, a);
    Write32(mem, a, AbsPatched(t, w, value));
  }
}
