# elfloader in Dafny

This project models `elfloader`, a runtime loader for RISC-V ELF relocatable
objects (`ET_REL`) on a 32-bit (riscv32) target, and proves properties of the
model. The loader is handed an object file in memory and then:

1. parses it: it checks the identification bytes, the version and that the
   file has sections;
2. lays out its allocatable sections in two groups, read-only text and
   writable data;
3. resolves the object's undefined symbols against the modules already
   registered, and refuses the object when an import is unresolved or a
   defined name is already provided;
4. copies the sections into freshly zeroed memory and finalises the symbol
   values;
5. applies the RISC-V relocations (`R_RISCV_*`) by rewriting the instruction
   words in place;
6. appends the new module to a registry, where `rust_elf_sym` looks names up
   and `rust_elf_unload` removes modules again.

## Files and modules

| file | module | what it holds |
|---|---|---|
| `common.dfy` | `Common` | target integer widths, `Option`, `Fault` and `Outcome`: a call returns, or halts in the panic handler. |
| `ei_magic.dfy` | `Magic` | `EIMagic::is_valid`. |
| `e_ident.dfy` | `Ident` | `EIdent::is_valid`. |
| `e_header.dfy` | `ElfHeader` | `EHeader::is_valid` and its accessors. |
| `s_header.dfy` | `SectionHeader` | `SHeader` accessors and `section_address_set`. |
| `symbol.dfy` | `Symbols` | `Symbol` accessors, the `st_info` / `st_other` decoders and `symbol_value_set`. |
| `rela.dfy` | `Relas` | `Rela` accessors and the `r_info` split. |
| `memory.dfy` | `Memory` | memory as an `array<bv8>`: unaligned little-endian word and halfword access, copy and zero fill. |
| `cstr.dfy` | `CStrings` | the NUL-terminated string at an address. |
| `relocation.dfy` | `Relocation` | `ELFFile::relocateadd`: immediate encodings, each relocation kind, and the method that patches memory. |
| `elf.dfy` | `Elf` | the image (class `ElfImage`), `ELFFile::parse`, symbol enumeration, `alignup`, `calculate_needed_size`. |
| `elf_module.dfy` | `ElfModules` | `ElfModule` and its builder steps: `new`, `alloc_memory_with`, `fill_undefined_symbols`, `load_into_memory`, `update_symbol_value_with`, `relocate_symbols_with`, `add_symbol`, `find_symbol`. |
| `module_root.dfy` | `Registry` | `ElfModuleRoot` (a class): `load_elf_file`, `unload_elf_module`, `find_symbol`, `find_symbol_and_weak`, and the invariants of the registry. |
| `lib.dfy` | `Lib` | the C entry points `rust_elf_load`, `rust_elf_sym` and `rust_elf_unload`, and `cstr2ruststr` of `src/lib.rs`. |
| `util.dfy` | `Util` | the loop version of `cstr2ruststr` in `src/util.rs`. |

## Modelling choices

- **Target.** Pointers and `usize` are 32 bits wide. Fields used in bit
  arithmetic or as addresses are `bv32` / `bv8`, so the source's wrapping
  arithmetic is the bit-vector arithmetic. `r_addend` is `isize`: it is read
  as a signed word (`RelaAddend`). Counters and offsets are integer subset
  types.
- **Image.** The object file is a class `ElfImage`. It holds the raw bytes,
  the header, and the decoded section headers, symbols and relocation
  entries, each keyed by its byte offset in the file (ELF32 sizes: 40, 16
  and 12 bytes). The two fields the loader writes through the image,
  `sh_addr` and `st_value`, are mutable maps `shAddr` / `stValue`. The
  setters `SetSectionAddress` / `SetSymbolValue` update them.
  `ElfFile` pairs the image with the result of `parse`.
- **Memory.** All of memory is one `array<bv8>` indexed by address, shorter
  than 2^32 bytes. The allocator is external. The addresses it returns for
  the two groups are parameters (`textBase`, `dataBase`), and `AllocatorOk`
  states what it guarantees: each block starts at a multiple of its layout's
  alignment, each lies in memory, and the two do not overlap.
  `alloc_zeroed` becomes zeroing those blocks.
- **Panics.** A panic becomes `Halted(fault)`. There are four kinds: a COMMON
  symbol, and the `assert_eq!` of BRANCH, RVC_JUMP and RVC_BRANCH.
  A relocation whose target lies outside memory is undefined behaviour in
  the source. The model halts with `OutsideMemory` when the bytes a kind
  patches or checks are not all in memory.
- **Malformed images.** Several image defects make the source index out of
  bounds or reinterpret an unknown number as an enum. Examples are a bad
  `sh_link` or `sh_info`, a bad section index or symbol index, `sh_entsize`
  0, an unknown relocation number or binding, and an unterminated name.
  These are excluded by the precondition `WellFormed`; so is a
  non-power-of-two alignment, on which `align_offset` panics.
- **Modules.** `ElfModule` is a datatype, because its builder steps take
  `self` and return a new module. `Rc` identity becomes a `Handle`: a number
  taken from a counter `nextHandle`. `Weak` references become `WeakRef`,
  either `Weak(handle)` or `Dangling` (`Weak::default()`).
  `ElfModuleRoot` is a class whose field `modules` is a sequence of
  `Slot(handle, elfModule)`. `load_elf_file` appends to it and
  `unload_elf_module` removes from it.
- **Load as a function.** `LoadElf` computes the whole effect of
  `load_elf_file` on the registry, memory and the image fields.
  `ElfModuleRoot.LoadElfFile` is proved to have exactly that effect, and the
  lemmas about `LoadElf` carry the properties.

Five behaviours of the code are easy to misread. The model keeps each as
written:

- **Dependents are never recorded.** `ElfModule` has a `dependents` field
  (src/elf_module.rs:113), and `unload_elf_module` refuses to unload a module
  while that list is non-empty (src/elf_module.rs:74). But
  `fill_undefined_symbols` (src/elf_module.rs:195-210) pushes each provider
  only onto `dependencies`. No code pushes onto `dependents`, so every
  registered module can be unloaded. `AssembledShape` and `LoadOutcomes`
  prove that a new module has no dependents, and `RootValid` keeps
  `NoDependents` as an invariant.
- **Local names conflict too.** The conflict check of `load_elf_file`
  (src/elf_module.rs:41-44) runs over `get_all_symbol_names`
  (src/elf.rs:84-112). That function keeps every named symbol whose
  `st_shndx` is not 0, whatever its binding, so local and ABS symbols
  conflict as well as exported ones (`Conflicts`).
- **A null address is unresolved.** An import counts as unresolved when its
  provider has it at address 0, as well as when no module has it
  (src/elf_module.rs:30-36; `Unresolved`, `ResolveNull`).
- **Section symbols are never rebased.** The `update_symbol_value_with` pass
  skips every entry with `st_name == 0` (src/elf_module.rs:291), and section
  symbols (STT_SECTION) normally have no name. A relocation against a section
  symbol therefore uses the file's un-rebased `st_value`
  (src/elf_module.rs:380-384), not the section's load address plus that
  value (`UpdateKeepsUnnamed`).
- **LO12_I masks too much.** `LO12_I` (src/elf.rs:236-242) keeps only bits
  11:0 of the word, so
  it clears `rs1` and `funct3`. This is modelled as written and exhibited by
  `Relocation.Lo12IDropsSourceRegister`.

## Model

| member | source | states |
|---|---|---|
| Magic.IsValidIffElfMag | src/elf/headers/e_header/e_ident/ei_magic.rs:7-14 | the magic check holds exactly for the bytes 0x7f 'E' 'L' 'F' |
| Magic.ChangedByteIsInvalid | src/elf/headers/e_header/e_ident/ei_magic.rs:10-13 | changing any one byte of a valid magic makes it invalid |
| Magic.PermutedMagicIsInvalid | src/elf/headers/e_header/e_ident/ei_magic.rs:10-13 | every reordering of ELFMAG other than the identity is refused |
| Ident.IsValidIff | src/elf/headers/e_header/e_ident.rs:32-38 | the identification is valid iff the magic is ELFMAG and the version byte is EV_CURRENT |
| Ident.BadMagicIsInvalid | src/elf/headers/e_header/e_ident.rs:33 | an invalid magic gives false whatever the version byte |
| Ident.BadVersionIsInvalid | src/elf/headers/e_header/e_ident.rs:34-37 | a version byte other than EV_CURRENT gives false |
| Ident.IgnoredFields | src/elf/headers/e_header/e_ident.rs:14-38 | class, data encoding, OS ABI, ABI version and padding do not affect validity |
| ElfHeader.IsValidIff | src/elf/headers/e_header.rs:16-22 | the header is valid iff magic, identification version and `e_version` are right |
| ElfHeader.IsValidIgnoresTypeMachineCounts | src/elf/headers/e_header.rs:16-22 | file type, machine and the table counts play no part in validity |
| ElfHeader.ForeignHeaderCanBeValid | src/elf/headers/e_header.rs:16-22 | an executable for no machine can pass the check |
| ElfHeader.ElfFlags | src/elf/headers/e_header.rs:24-26 | returns `e_flags` |
| ElfHeader.SectionHeaderOffset | src/elf/headers/e_header.rs:28-30 | returns `e_shoff` |
| ElfHeader.SectionHeaderNums | src/elf/headers/e_header.rs:32-34 | returns `e_shnum` widened without loss (below 2^16) |
| ElfHeader.Shstrndx | src/elf/headers/e_header.rs:36-38 | returns `e_shstrndx` widened without loss (below 2^16) |
| SectionHeader.SectionNameOffset | src/elf/headers/s_header.rs:10-12 | `sh_name` widened without loss |
| SectionHeader.SectionType | src/elf/headers/s_header.rs:14-16 | returns `sh_type` |
| SectionHeader.SectionFlags | src/elf/headers/s_header.rs:18-20 | returns `sh_flags` |
| SectionHeader.SectionOffset | src/elf/headers/s_header.rs:22-24 | returns `sh_offset` |
| SectionHeader.SectionSize | src/elf/headers/s_header.rs:26-28 | returns `sh_size` |
| SectionHeader.SectionEntsize | src/elf/headers/s_header.rs:30-32 | returns `sh_entsize` |
| SectionHeader.SectionLink | src/elf/headers/s_header.rs:34-36 | `sh_link` widened without loss |
| SectionHeader.SectionInfo | src/elf/headers/s_header.rs:38-40 | `sh_info` widened without loss |
| SectionHeader.SectionAddralign | src/elf/headers/s_header.rs:42-44 | returns `sh_addralign` |
| SectionHeader.SectionAddress | src/elf/headers/s_header.rs:46-48 | returns `sh_addr` |
| SectionHeader.SectionAddressSet | src/elf/headers/s_header.rs:50-55 | after setting, the address reads back as the new one and every other accessor answers as before |
| SectionHeader.SectionAddressSetTwice | src/elf/headers/s_header.rs:50-55 | two writes of the address keep only the second |
| Symbols.SymbolValue | src/elf/section/symbol.rs:14-16 | returns `st_value` |
| Symbols.SymbolValueSet | src/elf/section/symbol.rs:18-20 | after `symbol_value_set(v)` the value reads back as `v` and every other field is unchanged |
| Symbols.SymbolSize | src/elf/section/symbol.rs:22-24 | returns `st_size` |
| Symbols.SymbolNameOffset | src/elf/section/symbol.rs:26-28 | `st_name` widened without loss |
| Symbols.SymbolSectionNdx | src/elf/section/symbol.rs:30-32 | `st_shndx` widened without loss (below 2^16) |
| Symbols.SymbolType | src/elf/section/symbol.rs:34-36 | the type read from `st_info & 0xf` |
| Symbols.SymbolBind | src/elf/section/symbol.rs:38-40 | the binding read from `st_info >> 4` |
| Symbols.SymbolVisibility | src/elf/section/symbol.rs:42-44 | the visibility read from `st_other & 0x3`, always defined |
| Symbols.InfoRoundTrip | src/elf/section/symbol.rs:34-40 | `(bind << 4) \| type` gives back `st_info` for every byte |
| Symbols.InfoFromParts | src/elf/section/symbol.rs:34-40 | packing a binding and a type and decoding gives them back |
| Relas.RelaOffset | src/elf/section/rela.rs:10-12 | returns `r_offset` |
| Relas.RelaAddend | src/elf/section/rela.rs:14-16 | `r_addend` as a signed word: in range, negative iff bit 31 is set |
| Relas.SymbolOffset | src/elf/section/rela.rs:18-25 | the symbol index `r_info >> 8`, below 2^24 |
| Relas.RawRelaType | src/elf/section/rela.rs:31-38 | the relocation number `r_info & 0xff` |
| Relas.RelaTypeOf | src/elf/section/rela.rs:27-29 | the relocation number read as a kind; defined only for the listed numbers |
| Relas.RelaTypeRoundTrip | src/elf/section/rela/rela_type.rs:7-54 | a number is known exactly for the declared kinds, and each kind's number reads back as that kind |
| Relas.InfoRoundTrip | src/elf/section/rela.rs:18-38 | `(symbol_offset << 8) \| _rela_type` gives back `r_info` |
| Relas.InfoFromParts | src/elf/section/rela.rs:18-38 | packing a symbol index and a type into `r_info` and decoding gives them back |
| Memory.Read32 | src/elf.rs:218 | `read_unaligned` of a u32 gives the little-endian word at the address |
| Memory.Read16 | src/elf.rs:256 | `read_unaligned` of a u16 gives the little-endian halfword at the address |
| Memory.Write32 | src/elf.rs:178-179 | `write_unaligned` of a u32 replaces exactly the four bytes at the address |
| Memory.CopyInto | src/elf_module.rs:247-251 | `copy_nonoverlapping` puts the source bytes at the address and changes nothing else |
| Memory.ZeroFill | src/elf_module.rs:244-245 | `write_bytes(0, n)` zeroes exactly `n` bytes from the address |
| CStrings.FirstZero | src/lib.rs:68-70 | the index of the first zero byte |
| CStrings.CStrProperties | src/lib.rs:65-73 | the string is a zero-free prefix followed by a zero, empty iff the first byte is zero |
| CStrings.CStrUnique | src/lib.rs:65-73 | any zero-free prefix followed by a zero is the string |
| CStrings.CStrIgnoresTail | src/lib.rs:65-73 | bytes after the terminator do not matter |
| Relocation.SignExtend12 | src/elf.rs:187 | sign extension keeps the low 12 bits |
| Relocation.Hi20LowBitsZero | src/elf.rs:186-187 | hi20 has its low 12 bits clear and lo12 fits 12 bits |
| Relocation.Hi20Lo12Sum | src/elf.rs:184-187 | hi20 plus sign-extended lo12 is the offset again, modulo 2^32 |
| Relocation.PatchUFields | src/elf.rs:189-190 | the U-type patch keeps bits 11:0, holds hi20 as its immediate, and is idempotent |
| Relocation.PatchIFields | src/elf.rs:206-211 | the I-type patch keeps bits 19:0, holds lo12 as its immediate, and is idempotent |
| Relocation.PatchSFields | src/elf.rs:196-204 | the S-type patch keeps mask 0x1fff07f, holds lo12 as its immediate, and is idempotent |
| Relocation.PatchLo12IFields | src/elf.rs:236-242 | LO12_I keeps bits 11:0, zeroes bits 19:12 and holds lo12 as its immediate |
| Relocation.Lo12IDropsSourceRegister | src/elf.rs:239-241 | on `addi a0, a0, 0` LO12_I sets `rs1` to x0, where the I-type patch keeps a0 |
| Relocation.CallRoundingExample | src/elf.rs:184-214 | a call 0x1800 ahead gives hi20 0x2000 and lo12 0x800, with the patched words |
| Relocation.BEncodeRoundTrip | src/elf.rs:215-222 | the B immediate fills exactly mask 0xfe000f80 and encode and decode are inverse |
| Relocation.BranchCheck | src/elf.rs:215-224 | BRANCH passes iff the B immediate in place is the offset, bits 12:1 |
| Relocation.CJEncodeRoundTrip | src/elf.rs:253-264 | the CJ immediate fills exactly mask 0x1ffc and encode and decode are inverse |
| Relocation.RvcJumpCheck | src/elf.rs:253-269 | RVC_JUMP passes iff the CJ immediate in place is the offset, bits 11:1 |
| Relocation.CBEncodeRoundTrip | src/elf.rs:276-284 | the CB immediate fills exactly mask 0x1c7c and encode and decode are inverse |
| Relocation.RvcBranchCheck | src/elf.rs:276-286 | RVC_BRANCH passes iff the CB immediate in place is the offset, bits 8:1 |
| Relocation.PatchLo12PairFields | src/elf.rs:192-213 | the second-word patch keeps the opcode it dispatched on and is idempotent |
| Relocation.NoOpKinds | src/elf.rs:176-183 | RELAX, PCREL_LO12_I and PCREL_LO12_S leave memory as it is |
| Relocation.CheckOnlyKinds | src/elf.rs:215-292 | BRANCH, RVC_JUMP and RVC_BRANCH leave memory as it is or panic |
| Relocation.AbsoluteWord | src/elf.rs:177-180 | RISCV_32 and RISCV_64 store exactly one word, value + addend mod 2^32 |
| Relocation.AbsoluteWordExample | src/elf.rs:177-180 | value 0x80001000 with addend 4 stores 0x80001004 |
| Relocation.PcrelKinds | src/elf.rs:184-214 | PCREL_HI20, CALL and CALL_PLT patch the word pair for offset value - addr |
| Relocation.PcrelWords | src/elf.rs:184-214 | the pair patch puts hi20 into the auipc word and lo12 into the next, and touches only those eight bytes |
| Relocation.AbsKinds | src/elf.rs:231-252 | HI20, LO12_I and LO12_S rewrite the one word at the target |
| Relocation.AbsWord | src/elf.rs:231-252 | the rewritten word reads back as the patched value |
| Relocation.AbsIdempotent | src/elf.rs:231-252 | applying an absolute patch twice is applying it once |
| Relocation.PcrelIdempotent | src/elf.rs:184-214 | applying the pair patch twice is applying it once |
| Relocation.RelocatedIdempotent | src/elf.rs:164-294 | applying the same relocation a second time changes nothing more |
| Relocation.Relocated | src/elf.rs:164-294 | one relocation keeps the size of memory; its effect kind by kind is stated by AbsoluteWord, PcrelKinds, AbsKinds, BranchCheck, CheckOnlyKinds and NoOpKinds |
| Relocation.RelocateAdd | src/elf.rs:164-294 | `relocateadd` changes memory as `Relocated` says, and leaves it unchanged when it panics |
| Relocation.Apply | src/elf.rs:175-293 | the `match` on the kind, as `Relocated` says |
| Relocation.ApplyPatch | src/elf.rs:176-252 | the writing kinds, as `Relocated` says |
| Relocation.ApplyCheck | src/elf.rs:215-292 | the checking kinds: panic iff the check fails, memory untouched |
| Relocation.PatchPcrel | src/elf.rs:188-213 | the auipc write and the read-modify-write of the next word |
| Relocation.PatchAbs | src/elf.rs:231-252 | the read-modify-write of HI20, LO12_I and LO12_S |
| Elf.ElfImage.SetSectionAddress | src/elf/headers/s_header.rs:50-55 | writing `sh_addr` through the image changes that one header as `SectionAddressSet` says |
| Elf.ElfImage.SetSymbolValue | src/elf/section/symbol.rs:18-20 | writing `st_value` through the image changes that one entry as `SymbolValueSet` says |
| Elf.Parse | src/elf.rs:28-51 | a parsed file is the given buffer |
| Elf.ParseOutcomes | src/elf.rs:28-51 | null gives FileNotFound, no sections FileHasNotSection, an invalid header FileNotValid, otherwise Ok, each iff its cause |
| Elf.NoSectionsBeforeValidity | src/elf.rs:37-40 | a file with no sections is refused for that even when its header is invalid |
| Elf.SectionHeaders | src/elf.rs:155-158 | `e_shnum` headers from `e_shoff` on, as they read now |
| Elf.SectionSymRefs | src/elf.rs:56-66 | the entries of a SYMTAB section, each well formed |
| Elf.SymRefs | src/elf.rs:53-65 | every symbol-table entry of the image, each well formed |
| Elf.NamesWhereMembers | src/elf.rs:53-112 | a name is listed exactly when some selected entry carries it |
| Elf.NamesWhereAppend | src/elf.rs:53-82 | the enumeration of a concatenation is the concatenation of the enumerations |
| Elf.NamesBySection | src/elf.rs:53-82 | names come out in section order, each section's in entry order |
| Elf.NamesPartition | src/elf.rs:53-112 | every named entry is in exactly one of the two lists |
| Elf.UndefinedNamesMembers | src/elf.rs:53-82 | `get_undefined_symbol_names` holds exactly the names of named entries with section index 0 |
| Elf.AllNamesMembers | src/elf.rs:84-112 | `get_all_symbol_names` holds exactly the names of named entries with another section index |
| Elf.SymbolNamesPartition | src/elf.rs:53-112 | the two lists together have one name per named entry |
| Elf.AlignUp | src/elf.rs:123-125 | `alignup(v, a)` is a multiple of `a` in `[v, v + a)` |
| Elf.GroupStep | src/elf.rs:119-147 | a section changes only its own group, and a non-ALLOC one changes neither |
| Elf.GroupAlign | src/elf.rs:127-146 | a group's alignment is the largest `sh_addralign` of its sections, 0 iff it has none |
| Elf.GroupAlignPow2 | src/elf.rs:127-146 | a group's alignment is 0 or a power of two |
| Elf.GroupSizeMonotone | src/elf.rs:121-147 | running sizes never shrink |
| Elf.Placement | src/elf_module.rs:220-240 | each section starts aligned in its group, and it and its padding to 4 fit in the group |
| Elf.PlacedInOrder | src/elf_module.rs:220-240 | sections of one group do not overlap |
| ElfModules.New | src/elf_module.rs:139-148 | a new module has no links, no memory and no symbols |
| ElfModules.AddSymbol | src/elf_module.rs:394-399 | insertion adds the name and never overwrites an existing address |
| ElfModules.FirstInsertWins | src/elf_module.rs:394-399 | after two inserts of one name the lookup finds the first address |
| ElfModules.FindSymbol | src/elf_module.rs:401-403 | finds a name iff the table has it, with its address |
| ElfModules.Allocation | src/elf_module.rs:156-164 | a group gets a block iff it yields a non-empty layout, of its size and alignment |
| ElfModules.AllocMemoryWith | src/elf_module.rs:150-193 | each group that yields a layout gets a zeroed block; links and table are kept |
| ElfModules.Providers | src/elf_module.rs:206 | one provider per import, in order |
| ElfModules.FillUndefinedSymbols | src/elf_module.rs:195-210 | the module after importing, as `Filled` |
| ElfModules.FilledLinks | src/elf_module.rs:195-210 | importing pushes one provider per import and keeps dependents and memory |
| ElfModules.FilledTable | src/elf_module.rs:200-208 | the table gains exactly the imported names and keeps every address it had |
| ElfModules.FilledFirst | src/elf_module.rs:203-205 | a new name gets the address of its first import |
| ElfModules.SectionData | src/elf_module.rs:244-252 | a section's contents: zeros for NOBITS, file bytes otherwise, `sh_size` long |
| ElfModules.LoadedFits | src/elf_module.rs:241-252 | a loaded section fits in memory |
| ElfModules.LoadedUpTo | src/elf_module.rs:216-270 | loading keeps the size of memory; the bytes placed are stated by LoadedSection, LoadedSections and LoadedDisjoint |
| ElfModules.LoadIntoMemory | src/elf_module.rs:212-274 | memory and `sh_addr` after walking every section, as `LoadedUpTo` / `AddressesUpTo` |
| ElfModules.LoadSection | src/elf_module.rs:241-255 | a section whose group has a block is copied or zeroed there and gets that `sh_addr`; otherwise nothing changes |
| ElfModules.LoadedDisjoint | src/elf_module.rs:221-240 | two loaded sections occupy disjoint bytes |
| ElfModules.LoadedSection | src/elf_module.rs:216-270 | after loading, each loaded section's bytes are at its load address |
| ElfModules.LoadAddressAligned | src/elf_module.rs:220-240 | in blocks from the allocator, every loaded section starts at a multiple of its own `sh_addralign` |
| ElfModules.LoadedSections | src/elf_module.rs:216-270 | the same for every loaded section of the image |
| ElfModules.LoadedAddresses | src/elf_module.rs:242-254 | `sh_addr` of a loaded section is its load address; other sections keep theirs |
| ElfModules.UpdatedEntry | src/elf_module.rs:291-341 | one entry of the value pass keeps the set of entries |
| ElfModules.UpdatedEntryHalts | src/elf_module.rs:310-313 | one entry panics iff it is a named COMMON entry |
| ElfModules.UpdatedEntryValue | src/elf_module.rs:291-341 | one entry rewrites only its own value, case by case on the section index, and keeps every table address |
| ElfModules.UpdatedAll | src/elf_module.rs:279-346 | the pass keeps the set of entries |
| ElfModules.UpdatedAllStep | src/elf_module.rs:283-346 | the pass is its first entry followed by the rest, stopping at a panic |
| ElfModules.UpdateEntry | src/elf_module.rs:291-344 | one iteration rewrites `st_value` in place as `UpdatedEntry` says |
| ElfModules.UpdateDefined | src/elf_module.rs:322-341 | the defined non-COMMON branch, as `UpdatedEntry` says |
| ElfModules.UpdateSymbolValueWith | src/elf_module.rs:276-349 | the whole pass in place, as `UpdatedAll` says; only the table changes in the module |
| ElfModules.UpdateHaltsIff | src/elf_module.rs:310-313 | the pass panics iff some named entry is COMMON, with fault CommonSymbol |
| ElfModules.UpdateTable | src/elf_module.rs:335-340 | the pass keeps every table address, publishes the name of every defined GLOBAL entry, and adds no other name (the new addresses are stated by UpdatePublishes) |
| ElfModules.UpdatedEntryPublishes | src/elf_module.rs:322-340 | one entry publishes iff it is a defined GLOBAL entry; a name new to the table gets the entry's rebased `st_value`; any other entry leaves the table alone |
| ElfModules.UpdatePublishesHead | src/elf_module.rs:322-340 | when the walk's first entry publishes a new name, the final table maps it to that symbol's final `st_value` |
| ElfModules.UpdatePublishes | src/elf_module.rs:291-342 | the first entry that publishes a new name fixes its final table address to that symbol's final `st_value` |
| ElfModules.UpdateKeepsUnnamed | src/elf_module.rs:291 | entries without a name keep their value |
| ElfModules.SectionRelaRefs | src/elf_module.rs:357-380 | each entry of a RELA section names a symbol of table `sh_link` and patches section `sh_info` |
| ElfModules.RelaRefs | src/elf_module.rs:354-389 | every relocation entry of the image, each from a RELA section |
| ElfModules.RelaStep | src/elf_module.rs:379-385 | one relocation keeps the size of memory; it is Relocated at the target section's sh_addr plus r_offset, whose effect AbsoluteWord, PcrelKinds, AbsKinds, BranchCheck and NoOpKinds state |
| ElfModules.RelocatedAllStep | src/elf_module.rs:377-387 | the pass is its first step followed by the rest, stopping at a panic |
| ElfModules.RelocateEntry | src/elf_module.rs:379-385 | one iteration patches `sh_addr` of the target plus `r_offset` for its symbol's value |
| ElfModules.RelaRefsCovered | src/elf_module.rs:359-381 | every entry finds its symbol value and target address in the image |
| ElfModules.RelocateSymbolsWith | src/elf_module.rs:351-392 | memory after every relocation, as `RelocatedAll` says |
| ElfModules.RelocatedAllLength | src/elf_module.rs:351-392 | the relocation pass keeps the size of memory |
| ElfModules.RelocatedAllNoOps | src/elf_module.rs:377-387 | a pass of RELAX and PCREL_LO12 entries only leaves memory untouched |
| Registry.FindSymbolFirst | src/elf_module.rs:94-98 | the root lookup finds a name iff some module has it, with the first such module's address |
| Registry.FindSymbolAndWeakAgrees | src/elf_module.rs:100-109 | `find_symbol_and_weak` finds the same address, paired with that same module |
| Registry.Resolve | src/elf_module.rs:27-31 | the import carries the name it was built for; its address is stated by ResolveNull |
| Registry.Imports | src/elf_module.rs:23-33 | one import per undefined name, in order |
| Registry.ResolveNull | src/elf_module.rs:28-39 | an import is null iff no module has the name or the first one maps it to 0 |
| Registry.CheckImage | src/elf_module.rs:23-48 | the two refusal checks, as `Refused` |
| Registry.FreshShape | src/elf_module.rs:50-54 | the fresh module has no dependents, one provider per import, and the allocated blocks |
| Registry.FreshFits | src/elf_module.rs:50-52 | the fresh module's blocks fit in memory and do not overlap |
| Registry.Zeroed | src/elf_module.rs:150-172 | zeroing the blocks keeps the size of memory; the zeroed blocks are stated by AllocMemoryWith and ZeroFill |
| Registry.Pipeline | src/elf_module.rs:55-60 | the pipeline keeps the image's keys and the size of memory; the table it builds is stated by PipelineTable and PipelinePublishes |
| Registry.AssembledShape | src/elf_module.rs:50-60 | the built module has no dependents, one provider per import, and the allocated blocks |
| Registry.Instantiate | src/elf_module.rs:50-60 | the builder chain in place, as `Assembled` says |
| Registry.FreshResolved | src/elf_module.rs:23-39 | when every import resolved, each imported address is the registry lookup's |
| Registry.FilledResolved | src/elf_module.rs:200-208 | importing resolved names keeps the table in agreement with the registry lookup |
| Registry.PipelineTable | src/elf_module.rs:55-60 | the pipeline keeps every table address, publishes the name of every defined GLOBAL entry, and adds no other name (the new addresses are stated by PipelinePublishes) |
| Registry.AppendKeeps | src/elf_module.rs:62-65 | appending a module with no dependents under a new handle keeps the registry invariants |
| Registry.LoadOutcomes | src/elf_module.rs:22-66 | the answer is `None` exactly when the image is refused, and then nothing changes; a success appends exactly one module under a new handle, keeps earlier modules and the invariants |
| Registry.FindSymbolAppend | src/elf_module.rs:62-65 | a module appended at the back is only consulted for names no earlier module has |
| Registry.PipelinePublishes | src/elf_module.rs:55-60 | in the built module, each name the image first publishes maps to that symbol's final, rebased `st_value` |
| Registry.LoadPublishes | src/elf_module.rs:22-66 | after a successful load, the registry lookup finds each exported name at its symbol's final `st_value` in the image |
| Registry.LoadThenFind | src/elf_module.rs:22-66 | after a load, the registry lookup finds every name of the new module at its address, and every GLOBAL defined name is among them |
| Registry.ElfModuleRoot.constructor | src/lib.rs:24-26 | the registry starts empty and valid |
| Registry.ElfModuleRoot.LoadElfFile | src/elf_module.rs:22-66 | `load_elf_file` has exactly the effect `LoadElf` computes and keeps the invariants |
| Registry.ElfModuleRoot.UnloadElfModule | src/elf_module.rs:68-92 | `unload_elf_module` has exactly the effect `Unloaded` computes and keeps the invariants |
| Registry.LastIndexOf | src/elf_module.rs:69-72 | the last position holding the handle (`rfind`), or none exactly when it is not registered |
| Registry.IndexOf | src/elf_module.rs:79 | the first position holding the handle (where `upgrade` finds it), or none exactly when it is not registered |
| Registry.Without | src/elf_module.rs:81-83 | `retain` keeps exactly the handles other than the unloaded one, and never grows the list |
| Registry.RetainOne | src/elf_module.rs:78-86 | one `retain` keeps the length of the list |
| Registry.RemovedAt | src/elf_module.rs:91 | removing position `i` keeps every other module in order |
| Registry.RetainedShape | src/elf_module.rs:75-87 | the `retain` walk keeps handles, dependencies, tables and both blocks of every module, and only shrinks dependents |
| Registry.RetainedNoDependents | src/elf_module.rs:75-87 | when no module has dependents, the `retain` walk leaves the list exactly as it was |
| Registry.RetainedKeeps | src/elf_module.rs:74-87 | the `retain` walk keeps the registry invariants |
| Registry.RemovedKeeps | src/elf_module.rs:91 | removal keeps the invariants and unregisters exactly the removed handle |
| Registry.UnloadRemoves | src/elf_module.rs:68-92 | unloading a registered module removes exactly its last slot and leaves every other slot unchanged and in order; every other handle stays registered |
| Registry.UnloadUnknown | src/elf_module.rs:69-73 | unloading an unknown handle changes nothing |
| Lib.Cstr2RustStr | src/lib.rs:65-73 | the bytes from the address up to the first zero byte |
| Lib.SymbolAddressCases | src/lib.rs:48-58 | the handle's table answers first; otherwise the registry's first provider, otherwise null |
| Lib.RustElfSym | src/lib.rs:48-58 | `rust_elf_sym` answers `SymbolAddress` for the name at the pointer |
| Lib.RustElfLoad | src/lib.rs:39-44 | a buffer that does not parse gives null and changes nothing; otherwise the effect of `load_elf_file` |
| Lib.RustElfUnload | src/lib.rs:61-63 | null changes nothing; otherwise the effect of `unload_elf_module` |
| Util.Cstr2RustStr | src/util.rs:1-11 | the result is a zero-free prefix of the input followed by a zero, empty when the first byte is zero |
| Util.Cstr2RustStrIsCStr | src/util.rs:2-9 | those properties pin the result down to the string `cstr2ruststr` of src/lib.rs returns |

## Left out

- Console output: `print!`, `println!`, `hex_dump` and `print_text_and_data`, in src/console.rs, src/lib.rs and src/elf_module.rs. They never affect control flow, and the `cstr2ruststr` call that only feeds a message in `load_into_memory` goes with them. One exception: the `Debug` print of a symbol (src/elf/section/symbol.rs:47-54), called on every named entry (src/elf_module.rs:343), transmutes its type nibble and its binding, so an undeclared number there is undefined behaviour even for an undefined entry. `WellFormed` does not exclude that case, since the model leaves the print out.
- The allocator (src/allocator.rs, include/elfloader_fcn.h). Its results are the parameters `textBase` / `dataBase`, constrained by `AllocatorOk`. A null result of `alloc_zeroed` (an exhausted heap) is not modelled: `AllocatorOk` takes every block of a non-empty group as placed in memory.
- The panic handler (src/panic.rs). A panic ends the call as `Halted(fault)`, and the model says nothing of the state afterwards.
- `Drop for ElfModule`: freeing the blocks and the leaked name strings. Unload only removes the module from the registry.
- Reuse of a freed `Rc` address as a handle: handles come from a counter and are never reused.
- Aliasing between the image and the memory it is loaded into. The decoded records and the raw bytes of the image are taken as consistent and separate from `mem`, so a relocation never rewrites the image itself.
- Overflow panics of debug builds. The model wraps these sums as a release build does:
  `dstsecbase + r_offset`; `S + A` of RISCV_32 (src/elf.rs:179);
  `S - P` of the PC-relative kinds (src/elf.rs:185, 216, 254, 277);
  `offset + 0x800` and `offset - hi20` of PCREL_HI20, CALL and CALL_PLT (src/elf.rs:186-187);
  `S + 0x800` of HI20, LO12_I and LO12_S (src/elf.rs:232, 237, 244);
  `S - hi20` of LO12_I and LO12_S (src/elf.rs:238, 245);
  and `st_value + secbase` when a symbol is rebased (src/elf_module.rs:333).
- Wrap-around of the layout sums. Group sizes and section offsets (`Place`, `NeededUpTo`, the running offsets of `LoadIntoMemory`) are unbounded integers, not wrapped to 32 bits. A group whose true size exceeds `isize::MAX` gets no block in the model (`GroupAllocated` is false), so none of its sections is loaded. A release build would instead wrap the size (src/elf.rs:121-146), allocate the wrapped, too-small block (src/elf_module.rs:156-164) and write past its end in `load_into_memory` (src/elf_module.rs:242-252); that overrun is not modelled.
- UTF-8: names are byte strings, and `from_utf8_unchecked` is not modelled.
- The 64-bit `cfg` variants: the target is riscv32.
- `transmute` of an unknown symbol type nibble, binding or relocation number, and a non-power-of-two alignment: these are undefined behaviour or panics in the source. `SymbolType`, `SymbolBind` and `RelaTypeOf` require a declared number, and `WellFormed` excludes an unknown binding or relocation number and a bad alignment wherever the loader reads them.
- An unknown `sh_type` number. The source reads the field as the enum `SHType`, so an undeclared number is undefined behaviour there. The model reads `sh_type` as a plain `u32` and puts no constraint on it: a number other than SYMTAB, RELA and NOBITS makes the section an ordinary one.
- Relocation targets outside memory: the source does not check them. The model halts with `OutsideMemory` when the bytes a kind patches or checks are not all in memory. The word the debug print reads at the target for every kind (src/elf.rs:171) is left out with the print, so RELAX, PCREL_LO12_I and PCREL_LO12_S never halt, even where that read would be undefined behaviour; likewise the print reads 4 bytes where RVC_JUMP and RVC_BRANCH check only 2.
- The files src/elf/headers/s_header/sh_type.rs, src/elf/headers/e_header/e_version.rs, src/elf/headers/e_header/e_ident/ei_version.rs and src/elf/section/symbol/st_vis.rs are not part of this model. The numbers they declare (SHT_SYMTAB 2, SHT_RELA 4, SHT_NOBITS 8, EV_CURRENT 1, STV 0-3) are taken from the System V gABI.
- ElfModules.UpdatedEntry, ElfModules.UpdatedAll: their own contracts state only that the set of entries is kept. Values are stated by UpdatedEntryValue and UpdateKeepsUnnamed, panics by UpdateHaltsIff, the table's names by UpdateTable, and the published addresses by UpdatedEntryPublishes and UpdatePublishes.
- ElfModules.UpdatePublishes, Registry.PipelinePublishes, Registry.LoadPublishes: state a published address only when no later entry of the walk is the same symbol. Two SYMTAB sections over the same bytes would rebase that symbol a second time, while the table keeps the first value.
- ElfModules.AllocatorOk: does not require the two new blocks to be disjoint from the blocks of modules already registered. So the model does not promise that a load leaves other modules' memory alone.
- Registry.Resolve, Registry.RetainOne: their own contracts state only the name and the length. The address is stated by ResolveNull and FindSymbolAndWeakAgrees, the dependents by RetainedShape.
- Elf.Parse: its own contract states only that a parsed file is the given buffer. The outcomes are stated by ParseOutcomes.
- Lib.RustElfSym: requires a non-null handle to name a registered module. In the source a handle of a module already unloaded is a dangling pointer, and using it is undefined behaviour.
