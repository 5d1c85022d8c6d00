/** A 32-bit symbol-table entry (Elf32_Sym, chapter 4 of the System V gABI)
    and the decoders of its packed fields. */
module Symbols {
  import opened Common

  /** Reserved section indices. */
  const SHN_UNDEF: u16 := 0
  const SHN_ABS: u16 := 0xfff1
  const SHN_COMMON: u16 := 0xfff2

  datatype Symbol = Symbol(
    st_name: u32,
    st_value: bv32,
    st_size: usize,
    st_info: bv8,
    st_other: bv8,
    st_shndx: u16)

  /** ELF32_ST_BIND values the loader declares. */
  datatype STBind = BindLocal | BindGlobal | BindWeak | BindLoos | BindHios | BindLoproc | BindHiproc

  /** ELF32_ST_TYPE values the loader declares. */
  datatype STType =
    | TypeNotype | TypeObject | TypeFunc | TypeSection | TypeFile | TypeCommon | TypeTls
    | TypeLoos | TypeHios | TypeLoproc | TypeHiproc

  /** ELF32_ST_VISIBILITY values. */
  datatype STVis = VisDefault | VisInternal | VisHidden | VisProtected

  function BindCode(b: STBind): bv8
  {
    match b
    case BindLocal => 0
    case BindGlobal => 1
    case BindWeak => 2
    case BindLoos => 10
    case BindHios => 12
    case BindLoproc => 13
    case BindHiproc => 15
  }

  function TypeCode(t: STType): bv8
  {
    match t
    case TypeNotype => 0
    case TypeObject => 1
    case TypeFunc => 2
    case TypeSection => 3
    case TypeFile => 4
    case TypeCommon => 5
    case TypeTls => 6
    case TypeLoos => 10
    case TypeHios => 12
    case TypeLoproc => 13
    case TypeHiproc => 15
  }

  function VisCode(v: STVis): bv8
  {
    match v
    case VisDefault => 0
    case VisInternal => 1
    case VisHidden => 2
    case VisProtected => 3
  }

  /** The binding numbers that name a declared STBind: reinterpreting any
      other number as an STBind is not defined. */
  predicate IsKnownBind(n: bv8)
  {
    n == 0 || n == 1 || n == 2 || n == 10 || n == 12 || n == 13 || n == 15
  }

  predicate IsKnownType(n: bv8)
  {
    n <= 6 || n == 10 || n == 12 || n == 13 || n == 15
  }

  function BindBits(s: Symbol): bv8
  {
    s.st_info >> 4
  }

  function TypeBits(s: Symbol): bv8
  {
    s.st_info & 0xf
  }

  /** `st_info >> 4` read as a binding. */
  function SymbolBind(s: Symbol): (b: STBind)
    requires IsKnownBind(BindBits(s))
    ensures BindCode(b) == s.st_info >> 4
  {
    var n := BindBits(s);
    if n == 0 then BindLocal
    else if n == 1 then BindGlobal
    else if n == 2 then BindWeak
    else if n == 10 then BindLoos
    else if n == 12 then BindHios
    else if n == 13 then BindLoproc
    else BindHiproc
  }

  /** `st_info & 0xf` read as a type. */
  function SymbolType(s: Symbol): (t: STType)
    requires IsKnownType(TypeBits(s))
    ensures TypeCode(t) == s.st_info & 0xf
  {
    var n := TypeBits(s);
    if n == 0 then TypeNotype
    else if n == 1 then TypeObject
    else if n == 2 then TypeFunc
    else if n == 3 then TypeSection
    else if n == 4 then TypeFile
    else if n == 5 then TypeCommon
    else if n == 6 then TypeTls
    else if n == 10 then TypeLoos
    else if n == 12 then TypeHios
    else if n == 13 then TypeLoproc
    else TypeHiproc
  }

  /** `st_other & 0x3`, which always names a visibility. */
  function SymbolVisibility(s: Symbol): (v: STVis)
    ensures VisCode(v) == s.st_other & 0x3
  {
    var n := s.st_other & 0x3;
    if n == 0 then VisDefault else if n == 1 then VisInternal else if n == 2 then VisHidden else VisProtected
  }

  /** Binding and type together give back st_info, for every byte
      (ELF32_ST_INFO(ELF32_ST_BIND(i), ELF32_ST_TYPE(i)) == i). */
  lemma InfoRoundTrip(s: Symbol)
    ensures (BindBits(s) << 4) | TypeBits(s) == s.st_info
  {
  }

  /** Packing a binding and a type into st_info and decoding gives them back. */
  lemma InfoFromParts(s: Symbol, b: STBind, t: STType)
    requires s.st_info == (BindCode(b) << 4) | TypeCode(t)
    ensures SymbolBind(s) == b && SymbolType(s) == t
  {
  }

  function SymbolValue(s: Symbol): (r: bv32)
    ensures r == s.st_value
  {
    s.st_value
  }

  function SymbolSize(s: Symbol): (r: usize)
    ensures r == s.st_size
  {
    s.st_size
  }

  /** `st_name as usize`: widened without loss. */
  function SymbolNameOffset(s: Symbol): (r: usize)
    ensures r == s.st_name as int
  {
    s.st_name
  }

  /** `st_shndx as usize`: widened without loss. */
  function SymbolSectionNdx(s: Symbol): (r: usize)
    ensures r == s.st_shndx as int && r < 0x1_0000
  {
    s.st_shndx
  }

  /** The entry after `symbol_value_set(v)`: the value reads back as `v` and
      nothing else changes. */
  function SymbolValueSet(s: Symbol, v: bv32): (r: Symbol)
    ensures SymbolValue(r) == v
    ensures SymbolNameOffset(r) == SymbolNameOffset(s) && SymbolSize(r) == SymbolSize(s)
    ensures r.st_info == s.st_info && r.st_other == s.st_other
    ensures SymbolSectionNdx(r) == SymbolSectionNdx(s)
  {
    s.(st_value := v)
  }
}
