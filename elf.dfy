/** The loader's view of a relocatable image (src/elf.rs): parsing, the two
    symbol-name enumerations over the symbol tables, and the fold that sizes
    the two memory groups a module needs. */
module Elf {
  import opened Common
  import opened ElfHeader
  import opened SectionHeader
  import opened Symbols
  import opened Relas
  import opened CStrings

  /** Record sizes of ELF32. */
  const SHDR_SIZE: nat := 40
  const SYM_SIZE: nat := 16
  const RELA_SIZE: nat := 12

  /** The image buffer handed to the loader. `bytes` is the whole buffer; the
      header and the section-header, symbol and relocation records found in
      it are given decoded, keyed by their byte offset in the buffer. The
      loader writes two fields of those records in place: `sh_addr` of a
      section header and `st_value` of a symbol; their current values are
      `shAddr` and `stValue`. */
  class ElfImage {
    const bytes: seq<bv8>
    const header: EHeader
    const shdrs: map<nat, SHeader>
    const syms: map<nat, Symbol>
    const relas: map<nat, Rela>
    var shAddr: map<nat, bv32>
    var stValue: map<nat, bv32>

    ghost predicate Valid()
      reads this
    {
      shAddr.Keys == shdrs.Keys && stValue.Keys == syms.Keys
    }

    constructor (bytes: seq<bv8>, header: EHeader, shdrs: map<nat, SHeader>, syms: map<nat, Symbol>, relas: map<nat, Rela>)
      ensures this.bytes == bytes && this.header == header
      ensures this.shdrs == shdrs && this.syms == syms && this.relas == relas
      ensures shAddr == map k | k in shdrs :: shdrs[k].sh_addr
      ensures stValue == map k | k in syms :: syms[k].st_value
      ensures Valid()
    {
      this.bytes, this.header := bytes, header;
      this.shdrs, this.syms, this.relas := shdrs, syms, relas;
      shAddr := map k | k in shdrs :: shdrs[k].sh_addr;
      stValue := map k | k in syms :: syms[k].st_value;
    }

    /** The section header at offset `k` as it reads now. */
    function Shdr(k: nat): SHeader
      reads this
      requires Valid() && k in shdrs
    {
      SectionAddressSet(shdrs[k], shAddr[k])
    }

    /** The symbol at offset `k` as it reads now. */
    function Sym(k: nat): Symbol
      reads this
      requires Valid() && k in syms
    {
      SymbolValueSet(syms[k], stValue[k])
    }

    /** `section_address_set` on the header at `k`, through the image. */
    method SetSectionAddress(k: nat, a: bv32)
      requires Valid() && k in shdrs
      modifies this`shAddr
      ensures Valid()
      ensures shAddr == old(shAddr)[k := a]
      ensures Shdr(k) == SectionAddressSet(old(Shdr(k)), a)
    {
      shAddr := shAddr[k := a];
    }

    /** `symbol_value_set` on the symbol at `k`, through the image. */
    method SetSymbolValue(k: nat, v: bv32)
      requires Valid() && k in syms
      modifies this`stValue
      ensures Valid()
      ensures stValue == old(stValue)[k := v]
      ensures Sym(k) == SymbolValueSet(old(Sym(k)), v)
    {
      stValue := stValue[k := v];
    }
  }

  datatype ELFFileError = FileNotFound | FileHasNotSection | FileNotValid

  /** A successfully parsed image. */
  datatype ElfFile = ElfFile(image: ElfImage)

  datatype ParseResult = Ok(file: ElfFile) | Err(error: ELFFileError)

  /** `ELFFile::parse`; `null` stands for the null buffer pointer. */
  function Parse(img: ElfImage?): (r: ParseResult)
    ensures r.Ok? ==> r.file.image == img
  {
    if img == null then Err(FileNotFound)
    else if img.header.e_shnum < 1 then Err(FileHasNotSection)
    else if !IsValid(img.header) then Err(FileNotValid)
    else Ok(ElfFile(img))
  }

  /** Each outcome of parsing, with its exact cause: the section count is
      looked at before the header's validity. */
  lemma ParseOutcomes(img: ElfImage?)
    ensures Parse(img) == Err(FileNotFound) <==> img == null
    ensures Parse(img) == Err(FileHasNotSection) <==> img != null && img.header.e_shnum == 0
    ensures Parse(img) == Err(FileNotValid) <==> img != null && img.header.e_shnum != 0 && !IsValid(img.header)
    ensures Parse(img).Ok? <==> img != null && img.header.e_shnum != 0 && IsValid(img.header)
  {
  }

  /** A header without sections is refused for that reason even when it is
      also invalid. */
  lemma NoSectionsBeforeValidity(img: ElfImage)
    requires img.header.e_shnum == 0 && !IsValid(img.header)
    ensures Parse(img) == Err(FileHasNotSection)
  {
  }

  // ---------------------------------------------------------------------
  // Section headers

  function ShNum(f: ElfFile): nat
  {
    f.image.header.e_shnum
  }

  /** Where section header `i` lies: the table starts at `e_shoff`. */
  function ShKey(f: ElfFile, i: nat): nat
  {
    f.image.header.e_shoff + SHDR_SIZE * i
  }

  predicate HeadersPresent(f: ElfFile)
  {
    forall i :: 0 <= i < ShNum(f) ==> ShKey(f, i) in f.image.shdrs
  }

  /** Section header `i` as stored in the file (its `sh_addr` may since have
      been rewritten; every other field is as here). */
  function Hdr(f: ElfFile, i: nat): SHeader
    requires HeadersPresent(f) && i < ShNum(f)
  {
    f.image.shdrs[ShKey(f, i)]
  }

  /** `section_headers`: the `e_shnum` headers from `e_shoff` on, as they
      read now. */
  function SectionHeaders(f: ElfFile): (r: seq<SHeader>)
    reads f.image
    requires f.image.Valid() && HeadersPresent(f)
    ensures |r| == f.image.header.e_shnum
    ensures forall i :: 0 <= i < |r| ==> r[i] == f.image.Shdr(ShKey(f, i))
  {
    seq(ShNum(f), i reads f.image requires 0 <= i < ShNum(f) && f.image.Valid() && HeadersPresent(f) => f.image.Shdr(ShKey(f, i)))
  }

  /** The number of entries of a table section. */
  function EntryCount(sh: SHeader): nat
    requires sh.sh_entsize != 0
  {
    sh.sh_size / sh.sh_entsize
  }

  /** Where entry `j` of a symbol table lies. */
  function SymKey(sh: SHeader, j: nat): nat
  {
    sh.sh_offset + SYM_SIZE * j
  }

  /** Where entry `k` of a relocation table lies. */
  function RelaKey(sh: SHeader, k: nat): nat
  {
    sh.sh_offset + RELA_SIZE * k
  }

  // ---------------------------------------------------------------------
  // What the loader takes for granted about an image. The source indexes
  // with bounds checks (a panic), transmutes raw numbers into enums, divides
  // by `sh_entsize` and reads strings up to a zero byte; an image where any
  // of these fails is outside the model.

  predicate SymbolsPresent(f: ElfFile, sh: SHeader)
  {
    sh.sh_entsize != 0 && forall j :: 0 <= j < EntryCount(sh) ==> SymKey(sh, j) in f.image.syms
  }

  /** A zero byte ends the string that starts at `p`. */
  predicate NameTerminated(f: ElfFile, p: nat)
  {
    p < |f.image.bytes| && 0 in f.image.bytes[p..]
  }

  /** What the loader needs of a named symbol: a terminated name, a known
      binding where it reads the binding, and a section index in range where
      it indexes the section headers with it. */
  predicate EntryWellFormed(f: ElfFile, strtab: nat, s: Symbol)
  {
    s.st_name != 0 ==>
      && NameTerminated(f, strtab + s.st_name)
      && (s.st_shndx != SHN_UNDEF && s.st_shndx != SHN_COMMON ==> IsKnownBind(BindBits(s)))
      && (s.st_shndx != SHN_UNDEF && s.st_shndx != SHN_ABS && s.st_shndx != SHN_COMMON ==> s.st_shndx < ShNum(f))
  }

  predicate SymtabWellFormed(f: ElfFile, sh: SHeader)
    requires HeadersPresent(f)
  {
    && SymbolsPresent(f, sh)
    && sh.sh_link < ShNum(f)
    && forall j :: 0 <= j < EntryCount(sh) ==>
         EntryWellFormed(f, Hdr(f, sh.sh_link).sh_offset, f.image.syms[SymKey(sh, j)])
  }

  predicate RelaEntryWellFormed(symsec: SHeader, r: Rela)
    requires symsec.sh_entsize != 0
  {
    IsKnownRelaType(RawRelaType(r)) && SymbolOffset(r) < EntryCount(symsec)
  }

  predicate RelaWellFormed(f: ElfFile, sh: SHeader)
    requires HeadersPresent(f)
  {
    && sh.sh_entsize != 0
    && sh.sh_link < ShNum(f)
    && sh.sh_info < ShNum(f)
    && SymbolsPresent(f, Hdr(f, sh.sh_link))
    && forall k :: 0 <= k < EntryCount(sh) ==>
         RelaKey(sh, k) in f.image.relas && RelaEntryWellFormed(Hdr(f, sh.sh_link), f.image.relas[RelaKey(sh, k)])
  }

  predicate AllocWellFormed(f: ElfFile, sh: SHeader)
  {
    IsPow2(sh.sh_addralign) && (sh.sh_type != SHT_NOBITS ==> sh.sh_offset + sh.sh_size <= |f.image.bytes|)
  }

  predicate SectionWellFormed(f: ElfFile, i: nat)
    requires HeadersPresent(f) && i < ShNum(f)
  {
    var sh := Hdr(f, i);
    && (sh.sh_type == SHT_SYMTAB ==> SymtabWellFormed(f, sh))
    && (sh.sh_type == SHT_RELA ==> RelaWellFormed(f, sh))
    && (IsAlloc(sh) ==> AllocWellFormed(f, sh))
  }

  predicate WellFormed(f: ElfFile)
  {
    && HeadersPresent(f)
    && f.image.header.e_shstrndx < ShNum(f)
    && forall i :: 0 <= i < ShNum(f) ==> SectionWellFormed(f, i)
  }

  // ---------------------------------------------------------------------
  // Symbol enumeration

  /** A symbol-table entry met while walking the SYMTAB sections: where the
      entry lies and where its section's string table starts. */
  datatype SymRef = SymRef(key: nat, strtab: nat)

  predicate RefWellFormed(f: ElfFile, r: SymRef)
  {
    r.key in f.image.syms && EntryWellFormed(f, r.strtab, f.image.syms[r.key])
  }

  /** The entries of section `i`, in table order, when it is a SYMTAB. */
  function SectionSymRefs(f: ElfFile, i: nat): (refs: seq<SymRef>)
    requires WellFormed(f) && i < ShNum(f)
    ensures forall r :: r in refs ==> RefWellFormed(f, r)
  {
    assert SectionWellFormed(f, i);
    var sh := Hdr(f, i);
    if sh.sh_type != SHT_SYMTAB then []
    else
      var strtab := Hdr(f, sh.sh_link).sh_offset;
      var refs := seq(EntryCount(sh), j requires 0 <= j => SymRef(SymKey(sh, j), strtab));
      assert forall r :: r in refs ==> exists j :: 0 <= j < EntryCount(sh) && r == SymRef(SymKey(sh, j), strtab);
      refs
  }

  /** The entries of the SYMTAB sections among the first `n`, section by
      section. */
  function SymRefsUpTo(f: ElfFile, n: nat): (refs: seq<SymRef>)
    requires WellFormed(f) && n <= ShNum(f)
    ensures forall r :: r in refs ==> RefWellFormed(f, r)
  {
    if n == 0 then [] else SymRefsUpTo(f, n - 1) + SectionSymRefs(f, n - 1)
  }

  /** Every symbol-table entry of the image, in section order then entry
      order: the walk both enumerations and the symbol update share. */
  function SymRefs(f: ElfFile): (refs: seq<SymRef>)
    requires WellFormed(f)
    ensures forall r :: r in refs ==> RefWellFormed(f, r)
  {
    SymRefsUpTo(f, ShNum(f))
  }

  predicate AllWellFormed(f: ElfFile, refs: seq<SymRef>)
  {
    forall r :: r in refs ==> RefWellFormed(f, r)
  }

  function SymOf(f: ElfFile, r: SymRef): Symbol
    requires r.key in f.image.syms
  {
    f.image.syms[r.key]
  }

  /** The entry's name, read from its string table up to the zero byte. */
  function NameAt(f: ElfFile, r: SymRef): Name
    requires RefWellFormed(f, r) && SymOf(f, r).st_name != 0
  {
    CStr(f.image.bytes[r.strtab + SymOf(f, r).st_name..])
  }

  /** The filter of both enumerations: a named entry, undefined (section
      index 0) or defined (any other index) as `undefined` asks. */
  predicate Selected(f: ElfFile, r: SymRef, undefined: bool)
    requires r.key in f.image.syms
  {
    SymOf(f, r).st_name != 0 && (SymOf(f, r).st_shndx == SHN_UNDEF) == undefined
  }

  /** The names of the selected entries of `refs`, in order. */
  function NamesWhere(f: ElfFile, refs: seq<SymRef>, undefined: bool): seq<Name>
    requires AllWellFormed(f, refs)
  {
    if refs == [] then []
    else
      assert refs[0] in refs;
      (if Selected(f, refs[0], undefined) then [NameAt(f, refs[0])] else [])
      + NamesWhere(f, refs[1..], undefined)
  }

  /** `get_undefined_symbol_names`. */
  function GetUndefinedSymbolNames(f: ElfFile): seq<Name>
    requires WellFormed(f)
  {
    NamesWhere(f, SymRefs(f), true)
  }

  /** `get_all_symbol_names`: every defined named entry, local ones included. */
  function GetAllSymbolNames(f: ElfFile): seq<Name>
    requires WellFormed(f)
  {
    NamesWhere(f, SymRefs(f), false)
  }

  /** A name is listed exactly when some selected entry carries it. */
  lemma {:induction false} NamesWhereMembers(f: ElfFile, refs: seq<SymRef>, undefined: bool, n: Name)
    requires AllWellFormed(f, refs)
    ensures n in NamesWhere(f, refs, undefined) <==>
              exists r :: r in refs && Selected(f, r, undefined) && NameAt(f, r) == n
  {
    if refs != [] {
      NamesWhereMembers(f, refs[1..], undefined, n);
      assert forall r :: r in refs <==> r == refs[0] || r in refs[1..];
    }
  }

  /** The enumeration of a concatenation is the concatenation of the
      enumerations: names come out in section order, then entry order. */
  lemma {:induction false} NamesWhereAppend(f: ElfFile, a: seq<SymRef>, b: seq<SymRef>, undefined: bool)
    requires AllWellFormed(f, a) && AllWellFormed(f, b)
    ensures AllWellFormed(f, a + b)
    ensures NamesWhere(f, a + b, undefined) == NamesWhere(f, a, undefined) + NamesWhere(f, b, undefined)
  {
    if a == [] {
      assert a + b == b;
    } else {
      assert (a + b)[1..] == a[1..] + b;
      NamesWhereAppend(f, a[1..], b, undefined);
    }
  }

  /** The number of named entries. */
  function NamedCount(f: ElfFile, refs: seq<SymRef>): nat
    requires forall r :: r in refs ==> r.key in f.image.syms
  {
    if refs == [] then 0
    else (if SymOf(f, refs[0]).st_name != 0 then 1 else 0) + NamedCount(f, refs[1..])
  }

  /** Every named entry lands in exactly one of the two lists. */
  lemma {:induction false} NamesPartition(f: ElfFile, refs: seq<SymRef>)
    requires AllWellFormed(f, refs)
    ensures |NamesWhere(f, refs, true)| + |NamesWhere(f, refs, false)| == NamedCount(f, refs)
  {
    if refs != [] {
      NamesPartition(f, refs[1..]);
    }
  }

  /** Membership in `get_undefined_symbol_names`. */
  lemma UndefinedNamesMembers(f: ElfFile, n: Name)
    requires WellFormed(f)
    ensures n in GetUndefinedSymbolNames(f) <==>
              exists r :: r in SymRefs(f) && SymOf(f, r).st_shndx == SHN_UNDEF && SymOf(f, r).st_name != 0 && NameAt(f, r) == n
  {
    NamesWhereMembers(f, SymRefs(f), true, n);
  }

  /** Membership in `get_all_symbol_names`. */
  lemma AllNamesMembers(f: ElfFile, n: Name)
    requires WellFormed(f)
    ensures n in GetAllSymbolNames(f) <==>
              exists r :: r in SymRefs(f) && SymOf(f, r).st_shndx != SHN_UNDEF && SymOf(f, r).st_name != 0 && NameAt(f, r) == n
  {
    NamesWhereMembers(f, SymRefs(f), false, n);
  }

  /** Both lists together hold one name per named entry of the image. */
  lemma SymbolNamesPartition(f: ElfFile)
    requires WellFormed(f)
    ensures |GetUndefinedSymbolNames(f)| + |GetAllSymbolNames(f)| == NamedCount(f, SymRefs(f))
  {
    NamesPartition(f, SymRefs(f));
  }

  /** Adding section `n` to the walk appends that section's names. */
  lemma NamesBySection(f: ElfFile, n: nat, undefined: bool)
    requires WellFormed(f) && n < ShNum(f)
    ensures NamesWhere(f, SymRefsUpTo(f, n + 1), undefined)
         == NamesWhere(f, SymRefsUpTo(f, n), undefined) + NamesWhere(f, SectionSymRefs(f, n), undefined)
  {
    NamesWhereAppend(f, SymRefsUpTo(f, n), SectionSymRefs(f, n), undefined);
  }

  // ---------------------------------------------------------------------
  // Layout

  lemma Pow2Positive(a: nat)
    requires IsPow2(a)
    ensures a >= 1
  {
  }

  /** A power of two divides every power of two at least as large. */
  lemma {:induction false} Pow2Divides(a: nat, b: nat)
    requires IsPow2(a) && IsPow2(b) && a <= b
    ensures b % a == 0
    decreases a
  {
    if a != 1 {
      Pow2Divides(a / 2, b / 2);
      var k := (b / 2) / (a / 2);
      assert b / 2 == k * (a / 2);
      assert b == k * a;
      UniqueMod(b, a, k, 0);
    }
  }

  /** A multiple of a larger power of two plus a multiple of a smaller one is
      a multiple of the smaller. */
  lemma AlignedSum(base: nat, g: nat, a: nat, p: nat)
    requires IsPow2(a) && IsPow2(g) && a <= g && base % g == 0 && p % a == 0
    ensures (base + p) % a == 0
  {
    Pow2Divides(a, g);
    Pow2Positive(a);
    ModSum(base, g, a, p);
  }

  lemma ModSum(base: nat, g: nat, a: nat, p: nat)
    requires a > 0 && g > 0 && g % a == 0 && base % g == 0 && p % a == 0
    ensures (base + p) % a == 0
  {
    var q, k, r := base / g, g / a, p / a;
    assert base == q * g;
    assert g == k * a;
    assert p == r * a;
    MulSum(q, k, a, r);
    UniqueMod(base + p, a, q * k + r, 0);
  }

  lemma MulSum(q: int, k: int, a: int, r: int)
    ensures q * (k * a) + r * a == (q * k + r) * a
  {
  }

  lemma MulAtLeast(k: int, a: int)
    requires k >= 1 && a > 0
    ensures k * a >= a
  {
    assert k * a == (k - 1) * a + a;
    assert (k - 1) * a >= 0;
  }

  /** Euclidean division has one remainder. */
  lemma UniqueMod(x: int, a: int, q: int, m: int)
    requires a > 0 && 0 <= m < a && x == q * a + m
    ensures x % a == m
  {
    var d, r := x / a, x % a;
    assert x == d * a + r;
    assert (q - d) * a == r - m;
    if q - d >= 1 {
      MulAtLeast(q - d, a);
    } else if q - d <= -1 {
      MulAtLeast(d - q, a);
    }
  }

  lemma AlignUpMultiple(v: nat, a: nat)
    requires a >= 1
    ensures (v + (a - v % a) % a) % a == 0
  {
    var q, m := v / a, v % a;
    assert v == q * a + m;
    if m == 0 {
      UniqueMod(a - m, a, 1, 0);
      UniqueMod(v, a, q, 0);
    } else {
      UniqueMod(a - m, a, 0, a - m);
      assert v + (a - m) == (q + 1) * a + 0;
      UniqueMod(v + (a - m), a, q + 1, 0);
    }
  }

  /** The local `alignup(v, a)`: `v` plus its `align_offset` to `a`, the
      least multiple of `a` that is not below `v`. */
  function AlignUp(v: nat, a: nat): (r: nat)
    requires IsPow2(a)
    ensures v <= r < v + a && r % a == 0
  {
    Pow2Positive(a);
    AlignUpMultiple(v, a);
    v + (a - v % a) % a
  }

  /** One memory group: its running size and its alignment. */
  datatype Group = Group(size: nat, align: nat)

  /** The pair `calculate_needed_size` returns: the read-only group (text and
      rodata) and the writable group (data and bss). */
  datatype Needed = Needed(text: Group, data: Group)

  /** The group a writable (`w`) or read-only section goes to. */
  function GroupOf(n: Needed, w: bool): Group
  {
    if w then n.data else n.text
  }

  /** The section is loaded into group `w`. */
  predicate InGroup(sh: SHeader, w: bool)
  {
    IsAlloc(sh) && IsWrite(sh) == w
  }

  /** Appending a section to a group. */
  function Place(g: Group, sh: SHeader): Group
    requires IsPow2(sh.sh_addralign)
  {
    Group(AlignUp(g.size, sh.sh_addralign) + AlignUp(sh.sh_size, 4), Max(g.align, sh.sh_addralign))
  }

  /** The fold of `calculate_needed_size` over the first `n` sections. */
  function NeededUpTo(f: ElfFile, n: nat): Needed
    requires WellFormed(f) && n <= ShNum(f)
  {
    if n == 0 then Needed(Group(0, 0), Group(0, 0))
    else
      var acc := NeededUpTo(f, n - 1);
      var sh := Hdr(f, n - 1);
      assert SectionWellFormed(f, n - 1);
      if !IsAlloc(sh) then acc
      else if !IsWrite(sh) then acc.(text := Place(acc.text, sh))
      else acc.(data := Place(acc.data, sh))
  }

  /** `calculate_needed_size`. */
  function CalculateNeededSize(f: ElfFile): Needed
    requires WellFormed(f)
  {
    NeededUpTo(f, ShNum(f))
  }

  /** A section changes only the group it belongs to, and a non-ALLOC
      section changes neither. */
  lemma GroupStep(f: ElfFile, n: nat, w: bool)
    requires WellFormed(f) && n < ShNum(f)
    ensures InGroup(Hdr(f, n), w) ==> IsPow2(Hdr(f, n).sh_addralign)
    ensures GroupOf(NeededUpTo(f, n + 1), w) ==
              if InGroup(Hdr(f, n), w) then Place(GroupOf(NeededUpTo(f, n), w), Hdr(f, n))
              else GroupOf(NeededUpTo(f, n), w)
  {
    assert SectionWellFormed(f, n);
  }

  /** The alignment of a group is the largest `sh_addralign` of its
      sections, and 0 exactly when it has none. */
  lemma {:induction false} GroupAlign(f: ElfFile, n: nat, w: bool)
    requires WellFormed(f) && n <= ShNum(f)
    ensures forall i :: 0 <= i < n && InGroup(Hdr(f, i), w) ==> Hdr(f, i).sh_addralign <= GroupOf(NeededUpTo(f, n), w).align
    ensures GroupOf(NeededUpTo(f, n), w).align == 0 <==> forall i :: 0 <= i < n ==> !InGroup(Hdr(f, i), w)
    ensures GroupOf(NeededUpTo(f, n), w).align != 0 ==>
              exists i :: 0 <= i < n && InGroup(Hdr(f, i), w) && Hdr(f, i).sh_addralign == GroupOf(NeededUpTo(f, n), w).align
  {
    if n > 0 {
      GroupAlign(f, n - 1, w);
      GroupStep(f, n - 1, w);
      if InGroup(Hdr(f, n - 1), w) {
        Pow2Positive(Hdr(f, n - 1).sh_addralign);
      }
    }
  }

  /** A group's alignment is 0 or a power of two. */
  lemma GroupAlignPow2(f: ElfFile, w: bool)
    requires WellFormed(f)
    ensures GroupOf(CalculateNeededSize(f), w).align == 0 || IsPow2(GroupOf(CalculateNeededSize(f), w).align)
  {
    GroupAlign(f, ShNum(f), w);
    var a := GroupOf(CalculateNeededSize(f), w).align;
    if a != 0 {
      var i :| 0 <= i < ShNum(f) && InGroup(Hdr(f, i), w) && Hdr(f, i).sh_addralign == a;
      assert SectionWellFormed(f, i);
    }
  }

  /** Running sizes never shrink. */
  lemma {:induction false} GroupSizeMonotone(f: ElfFile, i: nat, j: nat, w: bool)
    requires WellFormed(f) && i <= j <= ShNum(f)
    ensures GroupOf(NeededUpTo(f, i), w).size <= GroupOf(NeededUpTo(f, j), w).size
  {
    if i < j {
      GroupSizeMonotone(f, i, j - 1, w);
      GroupStep(f, j - 1, w);
    }
  }

  /** Where section `i` starts inside its group. */
  function PlacedAt(f: ElfFile, i: nat): nat
    requires WellFormed(f) && i < ShNum(f) && IsAlloc(Hdr(f, i))
  {
    assert SectionWellFormed(f, i);
    AlignUp(GroupOf(NeededUpTo(f, i), IsWrite(Hdr(f, i))).size, Hdr(f, i).sh_addralign)
  }

  /** Each allocatable section starts at a multiple of its alignment, and it
      and its padding to 4 bytes fit in its group. */
  lemma Placement(f: ElfFile, i: nat)
    requires WellFormed(f) && i < ShNum(f) && IsAlloc(Hdr(f, i))
    ensures Hdr(f, i).sh_addralign > 0 && PlacedAt(f, i) % Hdr(f, i).sh_addralign == 0
    ensures PlacedAt(f, i) + AlignUp(Hdr(f, i).sh_size, 4) <= GroupOf(CalculateNeededSize(f), IsWrite(Hdr(f, i))).size
  {
    var w := IsWrite(Hdr(f, i));
    GroupStep(f, i, w);
    Pow2Positive(Hdr(f, i).sh_addralign);
    GroupSizeMonotone(f, i + 1, ShNum(f), w);
  }

  /** Sections of one group do not overlap: a later one starts after an
      earlier one and its padding. */
  lemma PlacedInOrder(f: ElfFile, i: nat, j: nat)
    requires WellFormed(f) && i < j < ShNum(f)
    requires IsAlloc(Hdr(f, i)) && IsAlloc(Hdr(f, j)) && IsWrite(Hdr(f, i)) == IsWrite(Hdr(f, j))
    ensures PlacedAt(f, i) + AlignUp(Hdr(f, i).sh_size, 4) <= PlacedAt(f, j)
  {
    var w := IsWrite(Hdr(f, i));
    GroupStep(f, i, w);
    GroupSizeMonotone(f, i + 1, j, w);
  }
}
