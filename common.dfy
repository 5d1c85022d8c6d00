/** Vocabulary shared by the whole loader model: the integer widths of the
    riscv32 target, an option type, and the outcome of a call that may end in
    the panic handler instead of returning. */
module Common {

  type u8 = x: int | 0 <= x < 0x100
  type u16 = x: int | 0 <= x < 0x1_0000
  type u32 = x: int | 0 <= x < 0x1_0000_0000
  /** `usize` on the 32-bit target. */
  type usize = u32

  /** A symbol name, as the bytes before the terminating zero. */
  type Name = seq<bv8>

  datatype Option<+T> = None | Some(value: T)

  /** Why a call does not return. The first four are explicit panics of the
      loader; `OutsideMemory` is an access the loader does not check and the
      model refuses: a relocation whose target lies outside the address space. */
  datatype Fault =
    | CommonSymbol
    | BranchMismatch
    | RvcJumpMismatch
    | RvcBranchMismatch
    | OutsideMemory

  /** A call either returns a value or halts in the panic handler. */
  datatype Outcome<+T> = Returned(value: T) | Halted(fault: Fault)

  /** `a` is a power of two (1, 2, 4, ...); 0 is not. */
  predicate IsPow2(a: nat)
    decreases a
  {
    if a == 1 then true else a >= 2 && a % 2 == 0 && IsPow2(a / 2)
  }

  function Max(a: nat, b: nat): nat
  {
    if a < b then b else a
  }
}
