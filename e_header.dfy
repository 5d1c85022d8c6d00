/** The ELF file header of a 32-bit object (Elf32_Ehdr, chapter 4 of the
    System V gABI) and its validity check. */
module ElfHeader {
  import opened Common
  import Magic
  import Ident

  /** e_version: EV_CURRENT. */
  const EV_CURRENT: u32 := 1

  /** e_type values. */
  const ET_NONE: u16 := 0
  const ET_REL: u16 := 1
  const ET_EXEC: u16 := 2
  const ET_DYN: u16 := 3
  const ET_CORE: u16 := 4
  const ET_LOOS: u16 := 0xfe00
  const ET_HIOS: u16 := 0xfeff
  const ET_LOPROC: u16 := 0xff00
  const ET_HIPROC: u16 := 0xffff

  /** e_machine values known to the loader. */
  const EM_NONE: u16 := 0
  const EM_RISCV: u16 := 243

  datatype EHeader = EHeader(
    e_ident: Ident.EIdent,
    e_type: u16,
    e_machine: u16,
    e_version: u32,
    e_entry: usize,
    e_phoff: usize,
    e_shoff: usize,
    e_flags: u32,
    e_ehsize: u16,
    e_phentsize: u16,
    e_phnum: u16,
    e_shentsize: u16,
    e_shnum: u16,
    e_shstrndx: u16)

  /** The header is valid when its identification is and e_version is EV_CURRENT. */
  predicate IsValid(h: EHeader)
  {
    Ident.IsValid(h.e_ident) && h.e_version == EV_CURRENT
  }

  /** Validity spelled out down to the magic bytes. */
  lemma IsValidIff(h: EHeader)
    ensures IsValid(h) <==>
      && h.e_ident.magic.bytes == Magic.ELFMAG
      && h.e_ident.version == Ident.EI_VERSION_CURRENT
      && h.e_version == EV_CURRENT
  {
    Ident.IsValidIff(h.e_ident);
  }

  /** File type, machine and the table counts play no part in validity. */
  lemma IsValidIgnoresTypeMachineCounts(h: EHeader, t: u16, m: u16, shnum: u16, phnum: u16)
    ensures IsValid(h) == IsValid(h.(e_type := t, e_machine := m, e_shnum := shnum, e_phnum := phnum))
  {
  }

  /** So a header that is neither relocatable nor RISC-V can still pass. */
  lemma ForeignHeaderCanBeValid()
    ensures exists h: EHeader :: IsValid(h) && h.e_type == ET_EXEC && h.e_machine == EM_NONE
  {
    var id := Ident.EIdent(Magic.EIMagic(Magic.ELFMAG), 1, 1, Ident.EI_VERSION_CURRENT, 0, 0, []);
    var h := EHeader(id, ET_EXEC, EM_NONE, EV_CURRENT, 0, 0, 0, 0, 0, 0, 0, 0, 0, 0);
    assert IsValid(h);
  }

  function ElfFlags(h: EHeader): (r: u32)
    ensures r == h.e_flags
  {
    h.e_flags
  }

  function SectionHeaderOffset(h: EHeader): (r: usize)
    ensures r == h.e_shoff
  {
    h.e_shoff
  }

  /** `e_shnum as usize`: widened without loss. */
  function SectionHeaderNums(h: EHeader): (r: usize)
    ensures r == h.e_shnum as int && r < 0x1_0000
  {
    h.e_shnum
  }

  /** `e_shstrndx as usize`: widened without loss. */
  function Shstrndx(h: EHeader): (r: usize)
    ensures r == h.e_shstrndx as int && r < 0x1_0000
  {
    h.e_shstrndx
  }
}
