/** A 32-bit section header (Elf32_Shdr, chapter 4 of the System V gABI),
    its accessors and the in-place setter of its runtime address. */
module SectionHeader {
  import opened Common

  /** sh_type values the loader dispatches on. */
  const SHT_SYMTAB: u32 := 2
  const SHT_RELA: u32 := 4
  const SHT_NOBITS: u32 := 8

  /** sh_flags bits. */
  const SHF_WRITE: bv32 := 0x1
  const SHF_ALLOC: bv32 := 0x2
  const SHF_EXECINSTR: bv32 := 0x4
  const SHF_MERGE: bv32 := 0x10
  const SHF_STRINGS: bv32 := 0x20
  const SHF_INFO_LINK: bv32 := 0x40
  const SHF_LINK_ORDER: bv32 := 0x80
  const SHF_OS_NONCONFORMING: bv32 := 0x100
  const SHF_GROUP: bv32 := 0x200
  const SHF_TLS: bv32 := 0x400
  const SHF_COMPRESSED: bv32 := 0x800
  const SHF_MASKOS: bv32 := 0x0ff00000
  const SHF_MASKPROC: bv32 := 0xf0000000

  datatype SHeader = SHeader(
    sh_name: u32,
    sh_type: u32,
    sh_flags: bv32,
    sh_addr: bv32,
    sh_offset: usize,
    sh_size: usize,
    sh_link: u32,
    sh_info: u32,
    sh_addralign: usize,
    sh_entsize: usize)

  /** The section occupies memory while the program runs and must be loaded. */
  predicate IsAlloc(sh: SHeader)
  {
    sh.sh_flags & SHF_ALLOC != 0
  }

  /** The section is writable: it belongs to the data group, not the text group. */
  predicate IsWrite(sh: SHeader)
  {
    sh.sh_flags & SHF_WRITE != 0
  }

  /** `sh_name as usize`: widened without loss. */
  function SectionNameOffset(sh: SHeader): (r: usize)
    ensures r == sh.sh_name as int
  {
    sh.sh_name
  }

  function SectionType(sh: SHeader): (r: u32)
    ensures r == sh.sh_type
  {
    sh.sh_type
  }

  function SectionFlags(sh: SHeader): (r: bv32)
    ensures r == sh.sh_flags
  {
    sh.sh_flags
  }

  function SectionOffset(sh: SHeader): (r: usize)
    ensures r == sh.sh_offset
  {
    sh.sh_offset
  }

  function SectionSize(sh: SHeader): (r: usize)
    ensures r == sh.sh_size
  {
    sh.sh_size
  }

  function SectionEntsize(sh: SHeader): (r: usize)
    ensures r == sh.sh_entsize
  {
    sh.sh_entsize
  }

  /** `sh_link as usize`: widened without loss. */
  function SectionLink(sh: SHeader): (r: usize)
    ensures r == sh.sh_link as int
  {
    sh.sh_link
  }

  /** `sh_info as usize`: widened without loss. */
  function SectionInfo(sh: SHeader): (r: usize)
    ensures r == sh.sh_info as int
  {
    sh.sh_info
  }

  function SectionAddralign(sh: SHeader): (r: usize)
    ensures r == sh.sh_addralign
  {
    sh.sh_addralign
  }

  function SectionAddress(sh: SHeader): (r: bv32)
    ensures r == sh.sh_addr
  {
    sh.sh_addr
  }

  /** The header after `section_address_set(a)`: the address reads back as `a`
      and every other accessor answers as before. */
  function SectionAddressSet(sh: SHeader, a: bv32): (r: SHeader)
    ensures SectionAddress(r) == a
    ensures SectionNameOffset(r) == SectionNameOffset(sh) && SectionType(r) == SectionType(sh)
    ensures SectionFlags(r) == SectionFlags(sh) && SectionOffset(r) == SectionOffset(sh)
    ensures SectionSize(r) == SectionSize(sh) && SectionEntsize(r) == SectionEntsize(sh)
    ensures SectionLink(r) == SectionLink(sh) && SectionInfo(r) == SectionInfo(sh)
    ensures SectionAddralign(r) == SectionAddralign(sh)
  {
    sh.(sh_addr := a)
  }

  /** Setting the address twice keeps only the second write. */
  lemma SectionAddressSetTwice(sh: SHeader, a: bv32, b: bv32)
    ensures SectionAddressSet(SectionAddressSet(sh, a), b) == SectionAddressSet(sh, b)
  {
  }
}
