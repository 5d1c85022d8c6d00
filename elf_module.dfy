/** One loaded module and the steps that build it (src/elf_module.rs,
    `ElfModule`). The builder steps take the module by value and hand back
    the next one (`self -> Self`); the memory they write and the image
    fields they rewrite are changed in place. */
module ElfModules {
  import opened Common
  import opened SectionHeader
  import opened Symbols
  import opened Relas
  import opened Memory
  import opened Elf
  import Relocation

  /** The identity of a registered module (the address of its `Rc`). */
  type Handle = nat

  /** `rc::Weak<RefCell<ElfModule>>`; `Weak::default()` is `Dangling`. */
  datatype WeakRef = Dangling | Weak(target: Handle)

  /** A block from the allocator: its address and its `Layout`. */
  datatype Region = Region(base: nat, size: nat, align: nat)

  datatype ElfModule = ElfModule(
    dependents: seq<Handle>,
    dependencies: seq<WeakRef>,
    textInfo: Option<Region>,
    dataInfo: Option<Region>,
    symbolInfo: map<Name, bv32>)

  /** One resolved import: the name, its address and its provider. */
  datatype Import = Import(name: Name, addr: bv32, provider: WeakRef)

  /** `ElfModule::new`: no links, no memory, no symbols. */
  function New(): (m: ElfModule)
    ensures m.dependents == [] && m.dependencies == []
    ensures m.textInfo == None && m.dataInfo == None
    ensures m.symbolInfo == map[]
  {
    ElfModule([], [], None, None, map[])
  }

  /** `add_symbol` (`entry(name).or_insert(addr)`) on a symbol table. */
  function AddSymbol(table: map<Name, bv32>, name: Name, addr: bv32): (t: map<Name, bv32>)
    ensures t.Keys == table.Keys + {name}
    ensures t[name] == if name in table then table[name] else addr
    ensures forall n :: n in table ==> t[n] == table[n]
  {
    if name in table then table else table[name := addr]
  }

  /** `ElfModule::find_symbol`. */
  function FindSymbol(m: ElfModule, name: Name): (r: Option<bv32>)
    ensures r.Some? <==> name in m.symbolInfo
    ensures r.Some? ==> r.value == m.symbolInfo[name]
  {
    if name in m.symbolInfo then Some(m.symbolInfo[name]) else None
  }

  /** Looking up a name just inserted finds the first address ever given for
      it: a second insert never overwrites. */
  lemma FirstInsertWins(m: ElfModule, name: Name, a: bv32, b: bv32)
    ensures FindSymbol(m.(symbolInfo := AddSymbol(AddSymbol(m.symbolInfo, name, a), name, b)), name)
         == Some(if name in m.symbolInfo then m.symbolInfo[name] else a)
  {
  }

  // ---------------------------------------------------------------------
  // alloc_memory_with

  /** `Layout::from_size_align(size, align).ok().filter(size > 0)` on the
      32-bit target: a power-of-two alignment, a size that does not overflow
      `isize` once rounded up to it, and a size that is not zero. */
  predicate GroupAllocated(g: Group)
  {
    g.size > 0 && IsPow2(g.align) && g.size <= 0x7fff_ffff - (g.align - 1)
  }

  /** The region a group gets when the allocator returns `base` for it. */
  function Allocation(g: Group, base: nat): (r: Option<Region>)
    ensures r.Some? <==> GroupAllocated(g)
    ensures r.Some? ==> r.value == Region(base, g.size, g.align)
  {
    if GroupAllocated(g) then Some(Region(base, g.size, g.align)) else None
  }

  /** What the allocator guarantees of the addresses it returns for the two
      groups of `f` (`rust_aligned_alloc(layout.align(), size)`): each block
      starts at a multiple of its layout's alignment and lies in memory, and
      the two do not overlap. */
  predicate AllocatorOk(f: ElfFile, len: nat, textBase: nat, dataBase: nat)
    requires WellFormed(f)
  {
    var n := CalculateNeededSize(f);
    && (GroupAllocated(n.text) ==> textBase % n.text.align == 0 && textBase + n.text.size <= len)
    && (GroupAllocated(n.data) ==> dataBase % n.data.align == 0 && dataBase + n.data.size <= len)
    && (GroupAllocated(n.text) && GroupAllocated(n.data) ==>
          textBase + n.text.size <= dataBase || dataBase + n.data.size <= textBase)
  }

  /** Memory with a region set to zero (`alloc_zeroed`). */
  function ZeroRegion(m: seq<bv8>, r: Option<Region>): (z: seq<bv8>)
    requires r.Some? ==> r.value.base + r.value.size <= |m|
    ensures |z| == |m|
  {
    if r.None? then m else Splice(m, r.value.base, Zeros(r.value.size))
  }

  /** `alloc_memory_with`: each group that yields a layout gets a zeroed
      block; a group that does not keeps the module's current entry. */
  method AllocMemoryWith(em: ElfModule, f: ElfFile, mem: array<bv8>, textBase: nat, dataBase: nat) returns (r: ElfModule)
    requires WellFormed(f) && AllocatorOk(f, mem.Length, textBase, dataBase)
    modifies mem
    ensures r.dependents == em.dependents && r.dependencies == em.dependencies && r.symbolInfo == em.symbolInfo
    ensures r.textInfo == if GroupAllocated(CalculateNeededSize(f).text) then Allocation(CalculateNeededSize(f).text, textBase) else em.textInfo
    ensures r.dataInfo == if GroupAllocated(CalculateNeededSize(f).data) then Allocation(CalculateNeededSize(f).data, dataBase) else em.dataInfo
    ensures mem[..] == ZeroRegion(ZeroRegion(old(mem[..]), Allocation(CalculateNeededSize(f).text, textBase)),
                                  Allocation(CalculateNeededSize(f).data, dataBase))
  {
    var n := CalculateNeededSize(f);
    var text := Allocation(n.text, textBase);
    var data := Allocation(n.data, dataBase);
    r := em;
    if text.Some? {
      ZeroFill(mem, textBase, n.text.size);
      r := r.(textInfo := text);
    }
    if data.Some? {
      ZeroFill(mem, dataBase, n.data.size);
      r := r.(dataInfo := data);
    }
  }

  // ---------------------------------------------------------------------
  // fill_undefined_symbols

  /** The module after importing `imports` in order: each name is inserted
      first-insert-wins and each provider is pushed onto `dependencies`. */
  function Filled(em: ElfModule, imports: seq<Import>): ElfModule
    decreases |imports|
  {
    if imports == [] then em
    else
      var e := Filled(em, imports[..|imports| - 1]);
      var x := imports[|imports| - 1];
      e.(symbolInfo := AddSymbol(e.symbolInfo, x.name, x.addr), dependencies := e.dependencies + [x.provider])
  }

  /** The providers of `imports`, in order. */
  function Providers(imports: seq<Import>): (ps: seq<WeakRef>)
    ensures |ps| == |imports| && forall i :: 0 <= i < |imports| ==> ps[i] == imports[i].provider
  {
    seq(|imports|, i requires 0 <= i < |imports| => imports[i].provider)
  }

  /** The names of `imports`. */
  function ImportNames(imports: seq<Import>): set<Name>
  {
    set i | 0 <= i < |imports| :: imports[i].name
  }

  /** `fill_undefined_symbols`. */
  method FillUndefinedSymbols(em: ElfModule, imports: seq<Import>) returns (r: ElfModule)
    ensures r == Filled(em, imports)
  {
    r := em;
    var k := 0;
    while k < |imports|
      invariant 0 <= k <= |imports|
      invariant r == Filled(em, imports[..k])
    {
      assert imports[..k + 1][..k] == imports[..k];
      r := r.(symbolInfo := AddSymbol(r.symbolInfo, imports[k].name, imports[k].addr),
              dependencies := r.dependencies + [imports[k].provider]);
      k := k + 1;
    }
    assert imports[..k] == imports;
  }

  /** Importing pushes exactly one provider per import, in order, and leaves
      the module's other parts alone. */
  lemma {:induction false} FilledLinks(em: ElfModule, imports: seq<Import>)
    ensures Filled(em, imports).dependencies == em.dependencies + Providers(imports)
    ensures Filled(em, imports).dependents == em.dependents
    ensures Filled(em, imports).textInfo == em.textInfo && Filled(em, imports).dataInfo == em.dataInfo
    decreases |imports|
  {
    if imports != [] {
      var p := imports[..|imports| - 1];
      FilledLinks(em, p);
      assert Providers(p) + [imports[|imports| - 1].provider] == Providers(imports);
    }
  }

  /** The names of `imports` are those of all but the last, plus the last. */
  lemma ImportNamesLast(imports: seq<Import>)
    requires imports != []
    ensures ImportNames(imports) == ImportNames(imports[..|imports| - 1]) + {imports[|imports| - 1].name}
  {
    var p := imports[..|imports| - 1];
    forall n | n in ImportNames(imports) ensures n in ImportNames(p) + {imports[|imports| - 1].name} {
      var i :| 0 <= i < |imports| && imports[i].name == n;
      if i < |p| {
        assert p[i] == imports[i];
      }
    }
    forall n | n in ImportNames(p) ensures n in ImportNames(imports) {
      var i :| 0 <= i < |p| && p[i].name == n;
      assert imports[i] == p[i];
    }
  }

  /** The table after importing gains exactly the imported names and keeps
      every address it had. */
  lemma {:induction false} FilledTable(em: ElfModule, imports: seq<Import>)
    ensures Filled(em, imports).symbolInfo.Keys == em.symbolInfo.Keys + ImportNames(imports)
    ensures forall n :: n in em.symbolInfo ==> Filled(em, imports).symbolInfo[n] == em.symbolInfo[n]
    decreases |imports|
  {
    if imports != [] {
      FilledTable(em, imports[..|imports| - 1]);
      ImportNamesLast(imports);
    }
  }

  /** A name the table did not have gets the address of its first import. */
  lemma {:induction false} FilledFirst(em: ElfModule, imports: seq<Import>, i: nat)
    requires i < |imports| && imports[i].name !in em.symbolInfo
    requires forall j :: 0 <= j < i ==> imports[j].name != imports[i].name
    ensures imports[i].name in Filled(em, imports).symbolInfo
    ensures Filled(em, imports).symbolInfo[imports[i].name] == imports[i].addr
    decreases |imports|
  {
    FilledTable(em, imports);
    var p := imports[..|imports| - 1];
    if i < |p| {
      assert p[i] == imports[i];
      assert forall j :: 0 <= j < i ==> p[j] == imports[j];
      FilledFirst(em, p, i);
      FilledTable(em, p);
    } else {
      FilledTable(em, p);
      assert imports[i].name !in ImportNames(p) by {
        assert forall j :: 0 <= j < |p| ==> p[j] == imports[j];
      }
    }
  }

  // ---------------------------------------------------------------------
  // load_into_memory

  /** The block of the group a writable (`w`) or read-only section goes to. */
  function RegionOf(em: ElfModule, w: bool): Option<Region>
  {
    if w then em.dataInfo else em.textInfo
  }

  /** The module's blocks have the sizes the layout asks for and lie in memory. */
  predicate RegionsFit(f: ElfFile, em: ElfModule, len: nat)
    requires WellFormed(f)
  {
    forall w: bool :: RegionOf(em, w).Some? ==>
      RegionOf(em, w).value.size == GroupOf(CalculateNeededSize(f), w).size
      && RegionOf(em, w).value.base + RegionOf(em, w).value.size <= len
  }

  /** The two blocks do not overlap. */
  predicate RegionsDisjoint(em: ElfModule)
  {
    em.textInfo.Some? && em.dataInfo.Some? ==>
      em.textInfo.value.base + em.textInfo.value.size <= em.dataInfo.value.base
      || em.dataInfo.value.base + em.dataInfo.value.size <= em.textInfo.value.base
  }

  /** Section `i` is loaded: it is allocatable and its group got a block. */
  predicate Loaded(f: ElfFile, em: ElfModule, i: nat)
    requires WellFormed(f) && i < ShNum(f)
  {
    IsAlloc(Hdr(f, i)) && RegionOf(em, IsWrite(Hdr(f, i))).Some?
  }

  /** Where a loaded section goes: its block's base plus its place in the group. */
  function LoadAddress(f: ElfFile, em: ElfModule, i: nat): nat
    requires WellFormed(f) && i < ShNum(f) && Loaded(f, em, i)
  {
    RegionOf(em, IsWrite(Hdr(f, i))).value.base + PlacedAt(f, i)
  }

  /** In a module whose blocks came from the allocator, every loaded section
      starts at a multiple of its own `sh_addralign`. */
  lemma LoadAddressAligned(f: ElfFile, em: ElfModule, len: nat, textBase: nat, dataBase: nat, i: nat)
    requires WellFormed(f) && AllocatorOk(f, len, textBase, dataBase)
    requires em.textInfo == Allocation(CalculateNeededSize(f).text, textBase)
    requires em.dataInfo == Allocation(CalculateNeededSize(f).data, dataBase)
    requires i < ShNum(f) && Loaded(f, em, i)
    ensures Hdr(f, i).sh_addralign > 0 && LoadAddress(f, em, i) % Hdr(f, i).sh_addralign == 0
  {
    var w := IsWrite(Hdr(f, i));
    var g := GroupOf(CalculateNeededSize(f), w);
    var base := if w then dataBase else textBase;
    assert GroupAllocated(g) && base % g.align == 0;
    assert RegionOf(em, w).value.base == base;
    Placement(f, i);
    GroupStep(f, i, w);
    GroupAlign(f, ShNum(f), w);
    AlignedSum(base, g.align, Hdr(f, i).sh_addralign, PlacedAt(f, i));
  }

  /** What a loaded section holds: zeros for NOBITS, its file bytes otherwise. */
  function SectionData(f: ElfFile, i: nat): (d: seq<bv8>)
    requires WellFormed(f) && i < ShNum(f) && IsAlloc(Hdr(f, i))
    ensures |d| == Hdr(f, i).sh_size
  {
    var sh := Hdr(f, i);
    assert SectionWellFormed(f, i);
    if sh.sh_type == SHT_NOBITS then Zeros(sh.sh_size)
    else f.image.bytes[sh.sh_offset..sh.sh_offset + sh.sh_size]
  }

  /** The address as the `usize` written into `sh_addr`. */
  function Addr32(n: nat): bv32
  {
    (n % 0x1_0000_0000) as bv32
  }

  /** A loaded section fits in memory. */
  lemma LoadedFits(f: ElfFile, em: ElfModule, i: nat, len: nat)
    requires WellFormed(f) && RegionsFit(f, em, len) && i < ShNum(f) && Loaded(f, em, i)
    ensures LoadAddress(f, em, i) + Hdr(f, i).sh_size <= len
  {
    Placement(f, i);
    assert RegionOf(em, IsWrite(Hdr(f, i))).Some?;
  }

  /** Memory after the first `n` sections are loaded. */
  function LoadedUpTo(f: ElfFile, em: ElfModule, m: seq<bv8>, n: nat): (r: seq<bv8>)
    requires WellFormed(f) && RegionsFit(f, em, |m|) && n <= ShNum(f)
    ensures |r| == |m|
  {
    if n == 0 then m
    else
      var prev := LoadedUpTo(f, em, m, n - 1);
      if Loaded(f, em, n - 1) then
        LoadedFits(f, em, n - 1, |m|);
        Splice(prev, LoadAddress(f, em, n - 1), SectionData(f, n - 1))
      else prev
  }

  /** The `sh_addr` fields after the first `n` sections are loaded. */
  function AddressesUpTo(f: ElfFile, em: ElfModule, a: map<nat, bv32>, n: nat): map<nat, bv32>
    requires WellFormed(f) && n <= ShNum(f)
  {
    if n == 0 then a
    else
      var prev := AddressesUpTo(f, em, a, n - 1);
      if Loaded(f, em, n - 1) then prev[ShKey(f, n - 1) := Addr32(LoadAddress(f, em, n - 1))] else prev
  }

  /** `load_into_memory`: walks the ALLOC sections with the two running
      offsets of `calculate_needed_size`, copies or zero-fills each section
      whose group got a block, and points its `sh_addr` there. */
  method LoadIntoMemory(em: ElfModule, f: ElfFile, mem: array<bv8>)
    requires WellFormed(f) && f.image.Valid() && RegionsFit(f, em, mem.Length)
    modifies mem, f.image`shAddr
    ensures f.image.Valid()
    ensures mem[..] == LoadedUpTo(f, em, old(mem[..]), ShNum(f))
    ensures f.image.shAddr == AddressesUpTo(f, em, old(f.image.shAddr), ShNum(f))
  {
    var toff, doff := 0, 0;
    var i := 0;
    while i < ShNum(f)
      invariant 0 <= i <= ShNum(f)
      invariant toff == NeededUpTo(f, i).text.size && doff == NeededUpTo(f, i).data.size
      invariant f.image.Valid()
      invariant mem[..] == LoadedUpTo(f, em, old(mem[..]), i)
      invariant f.image.shAddr == AddressesUpTo(f, em, old(f.image.shAddr), i)
    {
      var sh := Hdr(f, i);
      GroupStep(f, i, true);
      GroupStep(f, i, false);
      if IsAlloc(sh) {
        var off;
        if !IsWrite(sh) {
          off := AlignUp(toff, sh.sh_addralign);
          toff := off + AlignUp(sh.sh_size, 4);
        } else {
          off := AlignUp(doff, sh.sh_addralign);
          doff := off + AlignUp(sh.sh_size, 4);
        }
        LoadSection(em, f, mem, i, off);
      }
      i := i + 1;
    }
  }

  /** One ALLOC section of `load_into_memory`, placed at `off` in its group:
      when the group got a block, the section's bytes are copied there (or
      zeroed for NOBITS) and its `sh_addr` is set to that address. */
  method LoadSection(em: ElfModule, f: ElfFile, mem: array<bv8>, i: nat, off: nat)
    requires WellFormed(f) && f.image.Valid() && RegionsFit(f, em, mem.Length)
    requires i < ShNum(f) && IsAlloc(Hdr(f, i)) && off == PlacedAt(f, i)
    modifies mem, f.image`shAddr
    ensures f.image.Valid()
    ensures Loaded(f, em, i) ==> LoadAddress(f, em, i) + Hdr(f, i).sh_size <= mem.Length
    ensures mem[..] == if Loaded(f, em, i) then Splice(old(mem[..]), LoadAddress(f, em, i), SectionData(f, i)) else old(mem[..])
    ensures f.image.shAddr == if Loaded(f, em, i) then old(f.image.shAddr)[ShKey(f, i) := Addr32(LoadAddress(f, em, i))] else old(f.image.shAddr)
  {
    var sh := Hdr(f, i);
    var region := if IsWrite(sh) then em.dataInfo else em.textInfo;
    if region.Some? {
      assert SectionWellFormed(f, i);
      var secaddr := region.value.base + off;
      assert Loaded(f, em, i) && secaddr == LoadAddress(f, em, i);
      LoadedFits(f, em, i, mem.Length);
      if sh.sh_type == SHT_NOBITS {
        assert SectionData(f, i) == Zeros(sh.sh_size);
        ZeroFill(mem, secaddr, sh.sh_size);
      } else {
        assert SectionData(f, i) == f.image.bytes[sh.sh_offset..sh.sh_offset + sh.sh_size];
        CopyInto(mem, secaddr, f.image.bytes[sh.sh_offset..sh.sh_offset + sh.sh_size]);
      }
      f.image.SetSectionAddress(ShKey(f, i), Addr32(secaddr));
    }
  }

  /** Two loaded sections occupy disjoint bytes: in one group by their
      placement, in two groups because the blocks are disjoint. */
  lemma LoadedDisjoint(f: ElfFile, em: ElfModule, len: nat, i: nat, j: nat)
    requires WellFormed(f) && RegionsFit(f, em, len) && RegionsDisjoint(em)
    requires i < j < ShNum(f) && Loaded(f, em, i) && Loaded(f, em, j)
    ensures LoadAddress(f, em, i) + Hdr(f, i).sh_size <= LoadAddress(f, em, j)
         || LoadAddress(f, em, j) + Hdr(f, j).sh_size <= LoadAddress(f, em, i)
  {
    Placement(f, i);
    Placement(f, j);
    if IsWrite(Hdr(f, i)) == IsWrite(Hdr(f, j)) {
      PlacedInOrder(f, i, j);
    } else {
      assert RegionOf(em, IsWrite(Hdr(f, i))).Some? && RegionOf(em, IsWrite(Hdr(f, j))).Some?;
    }
  }

  /** Once every section is loaded, each loaded section's bytes sit at its
      load address: no later section overwrites an earlier one. */
  lemma {:induction false} LoadedSection(f: ElfFile, em: ElfModule, m: seq<bv8>, i: nat, n: nat)
    requires WellFormed(f) && RegionsFit(f, em, |m|) && RegionsDisjoint(em)
    requires i < n <= ShNum(f) && Loaded(f, em, i)
    ensures LoadAddress(f, em, i) + Hdr(f, i).sh_size <= |m|
    ensures LoadedUpTo(f, em, m, n)[LoadAddress(f, em, i)..LoadAddress(f, em, i) + Hdr(f, i).sh_size] == SectionData(f, i)
  {
    LoadedFits(f, em, i, |m|);
    var b, d := LoadAddress(f, em, i), SectionData(f, i);
    if n == i + 1 {
      SpliceInside(LoadedUpTo(f, em, m, i), b, d);
    } else {
      var j := n - 1;
      LoadedSection(f, em, m, i, j);
      if Loaded(f, em, j) {
        LoadedFits(f, em, j, |m|);
        LoadedDisjoint(f, em, |m|, i, j);
        SpliceOutside(LoadedUpTo(f, em, m, j), LoadAddress(f, em, j), SectionData(f, j), b, |d|);
      }
    }
  }

  /** Every loaded section of a module's image holds its contents at its
      load address in the final memory. */
  lemma LoadedSections(f: ElfFile, em: ElfModule, m: seq<bv8>)
    requires WellFormed(f) && RegionsFit(f, em, |m|) && RegionsDisjoint(em)
    ensures forall i :: 0 <= i < ShNum(f) && Loaded(f, em, i) ==>
              LoadAddress(f, em, i) + Hdr(f, i).sh_size <= |m|
              && LoadedUpTo(f, em, m, ShNum(f))[LoadAddress(f, em, i)..LoadAddress(f, em, i) + Hdr(f, i).sh_size] == SectionData(f, i)
  {
    forall i | 0 <= i < ShNum(f) && Loaded(f, em, i)
      ensures LoadAddress(f, em, i) + Hdr(f, i).sh_size <= |m|
      ensures LoadedUpTo(f, em, m, ShNum(f))[LoadAddress(f, em, i)..LoadAddress(f, em, i) + Hdr(f, i).sh_size] == SectionData(f, i)
    {
      LoadedSection(f, em, m, i, ShNum(f));
    }
  }

  /** The section-header table maps one header to one key. */
  lemma ShKeyInjective(f: ElfFile, i: nat, j: nat)
    ensures ShKey(f, i) == ShKey(f, j) ==> i == j
  {
  }

  /** After loading, `sh_addr` of a loaded section is its load address and
      every other section keeps its `sh_addr`. */
  lemma {:induction false} LoadedAddresses(f: ElfFile, em: ElfModule, a: map<nat, bv32>, n: nat)
    requires WellFormed(f) && n <= ShNum(f)
    requires forall i :: 0 <= i < ShNum(f) ==> ShKey(f, i) in a
    ensures AddressesUpTo(f, em, a, n).Keys == a.Keys
    ensures forall i :: 0 <= i < ShNum(f) ==>
              AddressesUpTo(f, em, a, n)[ShKey(f, i)] ==
                if i < n && Loaded(f, em, i) then Addr32(LoadAddress(f, em, i)) else a[ShKey(f, i)]
  {
    if n > 0 {
      LoadedAddresses(f, em, a, n - 1);
      forall i | 0 <= i < ShNum(f)
        ensures AddressesUpTo(f, em, a, n)[ShKey(f, i)] ==
                  if i < n && Loaded(f, em, i) then Addr32(LoadAddress(f, em, i)) else a[ShKey(f, i)]
      {
        ShKeyInjective(f, i, n - 1);
      }
    }
  }

  // ---------------------------------------------------------------------
  // update_symbol_value_with

  /** The symbol values of the image and the module's table during the pass. */
  datatype SymState = SymState(values: map<nat, bv32>, table: map<Name, bv32>)

  /** `sh_addr` is known for every section header. */
  predicate AddrsCover(f: ElfFile, addrs: map<nat, bv32>)
  {
    forall i :: 0 <= i < ShNum(f) ==> ShKey(f, i) in addrs
  }

  /** A named entry with a section index other than UNDEF and COMMON and a
      GLOBAL binding: the pass publishes it. */
  predicate Published(f: ElfFile, r: SymRef)
    requires RefWellFormed(f, r)
  {
    var s := SymOf(f, r);
    s.st_name != 0 && s.st_shndx != SHN_UNDEF && s.st_shndx != SHN_COMMON && SymbolBind(s) == BindGlobal
  }

  /** A defined entry's value moved by the `sh_addr` of its section, wrapping. */
  function Rebased(f: ElfFile, addrs: map<nat, bv32>, shndx: nat, v: bv32): bv32
    requires AddrsCover(f, addrs) && shndx < ShNum(f)
  {
    v + addrs[ShKey(f, shndx)]
  }

  /** One entry of the pass. Entries without a name are skipped; a COMMON
      entry panics; an undefined entry takes the address the module's table
      has for its name, if any; an ABS entry keeps its value; any other entry
      is moved by its section's `sh_addr` (wrapping); a defined GLOBAL entry
      is then published first-insert-wins. */
  function UpdatedEntry(f: ElfFile, addrs: map<nat, bv32>, st: SymState, r: SymRef): (o: Outcome<SymState>)
    requires WellFormed(f) && AddrsCover(f, addrs) && RefWellFormed(f, r) && r.key in st.values
    ensures o.Returned? ==> o.value.values.Keys == st.values.Keys
  {
    var s := SymOf(f, r);
    if s.st_name == 0 then Returned(st)
    else
      var name := NameAt(f, r);
      if s.st_shndx == SHN_COMMON then Halted(CommonSymbol)
      else if s.st_shndx == SHN_UNDEF then
        Returned(if name in st.table then st.(values := st.values[r.key := st.table[name]]) else st)
      else
        var values := if s.st_shndx == SHN_ABS then st.values
                      else st.values[r.key := Rebased(f, addrs, s.st_shndx, st.values[r.key])];
        Returned(SymState(values, if SymbolBind(s) == BindGlobal then AddSymbol(st.table, name, values[r.key]) else st.table))
  }

  /** One entry of the pass panics exactly when it is a named COMMON entry. */
  lemma UpdatedEntryHalts(f: ElfFile, addrs: map<nat, bv32>, st: SymState, r: SymRef)
    requires WellFormed(f) && AddrsCover(f, addrs) && RefWellFormed(f, r) && r.key in st.values
    ensures UpdatedEntry(f, addrs, st, r).Halted? <==> SymOf(f, r).st_name != 0 && SymOf(f, r).st_shndx == SHN_COMMON
  {
  }

  /** Otherwise one entry rewrites at most its own `st_value`: an unnamed
      or ABS entry keeps it, an undefined entry takes the module's table
      address for its name when there is one, any other entry is moved by its
      section's `sh_addr`; and no address already in the table changes. */
  lemma UpdatedEntryValue(f: ElfFile, addrs: map<nat, bv32>, st: SymState, r: SymRef)
    requires WellFormed(f) && AddrsCover(f, addrs) && RefWellFormed(f, r) && r.key in st.values
    requires UpdatedEntry(f, addrs, st, r).Returned?
    ensures var o := UpdatedEntry(f, addrs, st, r);
            && (forall k :: k in st.values && k != r.key ==> o.value.values[k] == st.values[k])
            && (forall n :: n in st.table ==> n in o.value.table && o.value.table[n] == st.table[n])
    ensures var s := SymOf(f, r);
            UpdatedEntry(f, addrs, st, r).value.values[r.key] ==
              if s.st_name == 0 || s.st_shndx == SHN_ABS then st.values[r.key]
              else if s.st_shndx == SHN_UNDEF then
                (if NameAt(f, r) in st.table then st.table[NameAt(f, r)] else st.values[r.key])
              else Rebased(f, addrs, s.st_shndx, st.values[r.key])
  {
    var s := SymOf(f, r);
    var o := UpdatedEntry(f, addrs, st, r);
    if s.st_name != 0 && s.st_shndx != SHN_UNDEF {
      var name := NameAt(f, r);
      var values := if s.st_shndx == SHN_ABS then st.values
                    else st.values[r.key := Rebased(f, addrs, s.st_shndx, st.values[r.key])];
      assert o.value.values == values;
      if SymbolBind(s) == BindGlobal {
        assert o.value.table == AddSymbol(st.table, name, values[r.key]);
      } else {
        assert o.value.table == st.table;
      }
    }
  }

  /** One entry publishes exactly when it is a defined GLOBAL entry. Its name
      then joins the table, and a name new to the table gets the entry's
      finished `st_value`, the one just rebased. Any other entry leaves the
      table as it was. */
  lemma UpdatedEntryPublishes(f: ElfFile, addrs: map<nat, bv32>, st: SymState, r: SymRef)
    requires WellFormed(f) && AddrsCover(f, addrs) && RefWellFormed(f, r) && r.key in st.values
    requires UpdatedEntry(f, addrs, st, r).Returned?
    ensures var o := UpdatedEntry(f, addrs, st, r);
            && (Published(f, r) ==> o.value.table.Keys == st.table.Keys + {NameAt(f, r)})
            && (Published(f, r) && NameAt(f, r) !in st.table ==> o.value.table[NameAt(f, r)] == o.value.values[r.key])
            && (!Published(f, r) ==> o.value.table == st.table)
  {
  }

  predicate ValuesCover(refs: seq<SymRef>, values: map<nat, bv32>)
  {
    forall r :: r in refs ==> r.key in values
  }

  /** The pass over `refs`, stopping at the first panic. */
  function UpdatedAll(f: ElfFile, addrs: map<nat, bv32>, st: SymState, refs: seq<SymRef>): (o: Outcome<SymState>)
    requires WellFormed(f) && AddrsCover(f, addrs) && AllWellFormed(f, refs) && ValuesCover(refs, st.values)
    ensures o.Returned? ==> o.value.values.Keys == st.values.Keys
    decreases |refs|
  {
    if refs == [] then Returned(st)
    else
      assert refs[0] in refs;
      var o := UpdatedEntry(f, addrs, st, refs[0]);
      if o.Halted? then o
      else
        assert forall r :: r in refs[1..] ==> r in refs;
        UpdatedAll(f, addrs, o.value, refs[1..])
  }

  /** The pass over `refs` is its first entry followed by the pass over the rest. */
  lemma UpdatedAllStep(f: ElfFile, addrs: map<nat, bv32>, st: SymState, refs: seq<SymRef>)
    requires WellFormed(f) && AddrsCover(f, addrs) && AllWellFormed(f, refs) && ValuesCover(refs, st.values)
    requires refs != []
    ensures RefWellFormed(f, refs[0]) && refs[0].key in st.values
    ensures var o := UpdatedEntry(f, addrs, st, refs[0]);
            o.Returned? ==> AllWellFormed(f, refs[1..]) && ValuesCover(refs[1..], o.value.values)
    ensures UpdatedAll(f, addrs, st, refs)
         == var o := UpdatedEntry(f, addrs, st, refs[0]);
            if o.Halted? then o else UpdatedAll(f, addrs, o.value, refs[1..])
  {
    assert refs[0] in refs;
    assert forall r :: r in refs[1..] ==> r in refs;
  }

  /** One iteration of `update_symbol_value_with` on the entry `ref`,
      rewriting its `st_value` in place and publishing into `table`. */
  method UpdateEntry(f: ElfFile, table: map<Name, bv32>, ref: SymRef) returns (o: Outcome<map<Name, bv32>>)
    requires WellFormed(f) && f.image.Valid() && AddrsCover(f, f.image.shAddr) && RefWellFormed(f, ref)
    modifies f.image`stValue
    ensures f.image.Valid()
    ensures UpdatedEntry(f, f.image.shAddr, SymState(old(f.image.stValue), table), ref)
         == if o.Returned? then Returned(SymState(f.image.stValue, o.value)) else Halted(o.fault)
  {
    var s := f.image.Sym(ref.key);
    assert s == SymOf(f, ref).(st_value := f.image.stValue[ref.key]);
    if s.st_name == 0 {
      return Returned(table);
    }
    var name := NameAt(f, ref);
    if s.st_shndx == SHN_COMMON {
      return Halted(CommonSymbol);
    } else if s.st_shndx == SHN_UNDEF {
      var found := if name in table then Some(table[name]) else None;
      if found.Some? {
        f.image.SetSymbolValue(ref.key, found.value);
      }
      return Returned(table);
    } else {
      var t := UpdateDefined(f, table, ref, name);
      return Returned(t);
    }
  }

  /** The defined, non-COMMON branch of the pass: move the value unless the
      entry is ABS, then publish a GLOBAL entry. */
  method UpdateDefined(f: ElfFile, table: map<Name, bv32>, ref: SymRef, name: Name) returns (t: map<Name, bv32>)
    requires WellFormed(f) && f.image.Valid() && AddrsCover(f, f.image.shAddr) && RefWellFormed(f, ref)
    requires SymOf(f, ref).st_name != 0 && name == NameAt(f, ref)
    requires SymOf(f, ref).st_shndx != SHN_UNDEF && SymOf(f, ref).st_shndx != SHN_COMMON
    modifies f.image`stValue
    ensures f.image.Valid()
    ensures UpdatedEntry(f, f.image.shAddr, SymState(old(f.image.stValue), table), ref) == Returned(SymState(f.image.stValue, t))
  {
    var s := f.image.Sym(ref.key);
    assert s == SymOf(f, ref).(st_value := f.image.stValue[ref.key]);
    if s.st_shndx != SHN_ABS {
      f.image.SetSymbolValue(ref.key, Rebased(f, f.image.shAddr, s.st_shndx, s.st_value));
    }
    t := table;
    assert SymbolBind(s) == SymbolBind(SymOf(f, ref));
    if SymbolBind(s) == BindGlobal {
      t := AddSymbol(table, name, f.image.stValue[ref.key]);
    }
  }

  /** `update_symbol_value_with`: the pass over every symbol-table entry of
      the image, rewriting `st_value` in place and publishing into the
      module's table. */
  method UpdateSymbolValueWith(em: ElfModule, f: ElfFile) returns (r: Outcome<ElfModule>)
    requires WellFormed(f) && f.image.Valid()
    modifies f.image`stValue
    ensures f.image.Valid()
    ensures ValuesCover(SymRefs(f), old(f.image.stValue)) && AddrsCover(f, f.image.shAddr)
    ensures UpdatedAll(f, f.image.shAddr, SymState(old(f.image.stValue), em.symbolInfo), SymRefs(f))
         == if r.Returned? then Returned(SymState(f.image.stValue, r.value.symbolInfo)) else Halted(r.fault)
    ensures r.Returned? ==> r.value == em.(symbolInfo := r.value.symbolInfo)
  {
    var refs := SymRefs(f);
    var table := em.symbolInfo;
    ghost var addrs := f.image.shAddr;
    ghost var start := SymState(f.image.stValue, table);
    assert AddrsCover(f, addrs);
    assert ValuesCover(refs, f.image.stValue) by {
      forall x | x in refs ensures x.key in f.image.stValue {
        assert RefWellFormed(f, x);
      }
    }
    var k := 0;
    while k < |refs|
      invariant 0 <= k <= |refs|
      invariant f.image.Valid() && f.image.shAddr == addrs
      invariant AllWellFormed(f, refs[k..]) && ValuesCover(refs[k..], f.image.stValue)
      invariant UpdatedAll(f, addrs, start, refs) == UpdatedAll(f, addrs, SymState(f.image.stValue, table), refs[k..])
    {
      assert refs[k..][0] == refs[k] && refs[k..][1..] == refs[k + 1..];
      UpdatedAllStep(f, addrs, SymState(f.image.stValue, table), refs[k..]);
      var o := UpdateEntry(f, table, refs[k]);
      if o.Halted? {
        return Halted(o.fault);
      }
      table := o.value;
      k := k + 1;
    }
    assert refs[k..] == [];
    r := Returned(em.(symbolInfo := table));
  }

  /** The pass panics exactly when some named entry is COMMON. */
  lemma {:induction false} UpdateHaltsIff(f: ElfFile, addrs: map<nat, bv32>, st: SymState, refs: seq<SymRef>)
    requires WellFormed(f) && AddrsCover(f, addrs) && AllWellFormed(f, refs) && ValuesCover(refs, st.values)
    ensures UpdatedAll(f, addrs, st, refs).Halted? <==>
              exists r :: r in refs && SymOf(f, r).st_name != 0 && SymOf(f, r).st_shndx == SHN_COMMON
    ensures UpdatedAll(f, addrs, st, refs).Halted? ==> UpdatedAll(f, addrs, st, refs).fault == CommonSymbol
    decreases |refs|
  {
    if refs != [] {
      assert refs[0] in refs;
      assert forall r :: r in refs <==> r == refs[0] || r in refs[1..];
      match UpdatedEntry(f, addrs, st, refs[0])
      case Halted(x) =>
      case Returned(st1) =>
        UpdateHaltsIff(f, addrs, st1, refs[1..]);
    }
  }

  /** The pass never changes an address already in the table, publishes
      every defined GLOBAL entry's name, and adds no other name. */
  lemma {:induction false} UpdateTable(f: ElfFile, addrs: map<nat, bv32>, st: SymState, refs: seq<SymRef>)
    requires WellFormed(f) && AddrsCover(f, addrs) && AllWellFormed(f, refs) && ValuesCover(refs, st.values)
    requires UpdatedAll(f, addrs, st, refs).Returned?
    ensures forall n :: n in st.table ==>
              (n in UpdatedAll(f, addrs, st, refs).value.table && UpdatedAll(f, addrs, st, refs).value.table[n] == st.table[n])
    ensures forall r :: r in refs && Published(f, r) ==> NameAt(f, r) in UpdatedAll(f, addrs, st, refs).value.table
    ensures forall n :: n in UpdatedAll(f, addrs, st, refs).value.table ==>
              n in st.table || exists r :: r in refs && Published(f, r) && NameAt(f, r) == n
    decreases |refs|
  {
    if refs != [] {
      assert refs[0] in refs;
      assert forall r :: r in refs <==> r == refs[0] || r in refs[1..];
      var st1 := UpdatedEntry(f, addrs, st, refs[0]).value;
      UpdateTable(f, addrs, st1, refs[1..]);
    }
  }

  /** A table address equal to the value of a symbol the walk does not meet
      stays equal to it. */
  lemma UpdateKeepsPair(f: ElfFile, addrs: map<nat, bv32>, st: SymState, refs: seq<SymRef>, name: Name, key: nat)
    requires WellFormed(f) && AddrsCover(f, addrs) && AllWellFormed(f, refs) && ValuesCover(refs, st.values)
    requires UpdatedAll(f, addrs, st, refs).Returned?
    requires name in st.table && key in st.values && st.table[name] == st.values[key]
    requires forall r :: r in refs ==> r.key != key
    ensures name in UpdatedAll(f, addrs, st, refs).value.table
    ensures UpdatedAll(f, addrs, st, refs).value.table[name] == UpdatedAll(f, addrs, st, refs).value.values[key]
  {
    UpdateTable(f, addrs, st, refs);
    UpdateKeepsUnnamed(f, addrs, st, refs);
  }

  /** Entry `i` publishing first, with no later entry the same symbol, is
      entry `i - 1` of the walk's tail doing the same. */
  lemma FirstPublisherShift(f: ElfFile, refs: seq<SymRef>, i: nat)
    requires AllWellFormed(f, refs) && 0 < i < |refs| && Published(f, refs[i])
    requires forall j :: 0 <= j < i && Published(f, refs[j]) ==> NameAt(f, refs[j]) != NameAt(f, refs[i])
    requires forall j :: i < j < |refs| ==> refs[j].key != refs[i].key
    ensures refs[1..][i - 1] == refs[i]
    ensures Published(f, refs[0]) ==> NameAt(f, refs[0]) != NameAt(f, refs[i])
    ensures forall j :: 0 <= j < i - 1 && Published(f, refs[1..][j]) ==> NameAt(f, refs[1..][j]) != NameAt(f, refs[i])
    ensures forall j :: i - 1 < j < |refs[1..]| ==> refs[1..][j].key != refs[i].key
  {
    var rest := refs[1..];
    forall j | 0 <= j < i - 1 && Published(f, rest[j]) ensures NameAt(f, rest[j]) != NameAt(f, refs[i]) {
      assert rest[j] == refs[j + 1];
    }
    forall j | i - 1 < j < |rest| ensures rest[j].key != refs[i].key {
      assert rest[j] == refs[j + 1];
    }
  }

  /** A first entry that publishes a name new to the table fixes the
      name's final address to its own final `st_value`, when no later entry
      of the walk is the same symbol. */
  lemma UpdatePublishesHead(f: ElfFile, addrs: map<nat, bv32>, st: SymState, refs: seq<SymRef>)
    requires WellFormed(f) && AddrsCover(f, addrs) && AllWellFormed(f, refs) && ValuesCover(refs, st.values)
    requires UpdatedAll(f, addrs, st, refs).Returned?
    requires 0 < |refs| && Published(f, refs[0]) && NameAt(f, refs[0]) !in st.table
    requires forall j :: 0 < j < |refs| ==> refs[j].key != refs[0].key
    ensures NameAt(f, refs[0]) in UpdatedAll(f, addrs, st, refs).value.table
    ensures UpdatedAll(f, addrs, st, refs).value.table[NameAt(f, refs[0])] == UpdatedAll(f, addrs, st, refs).value.values[refs[0].key]
  {
    UpdatedAllStep(f, addrs, st, refs);
    var st1 := UpdatedEntry(f, addrs, st, refs[0]).value;
    var rest := refs[1..];
    UpdatedEntryPublishes(f, addrs, st, refs[0]);
    forall r | r in rest ensures r.key != refs[0].key {
      var j :| 0 <= j < |rest| && rest[j] == r;
      assert refs[j + 1] == r;
    }
    UpdateKeepsPair(f, addrs, st1, rest, NameAt(f, refs[0]), refs[0].key);
  }

  /** The first entry that publishes a name new to the table decides its
      address: the table ends up mapping the name to that entry's finished
      `st_value`, provided no later entry of the walk is the same symbol
      (which would rewrite that value once more). */
  lemma {:induction false} UpdatePublishes(f: ElfFile, addrs: map<nat, bv32>, st: SymState, refs: seq<SymRef>, i: nat)
    requires WellFormed(f) && AddrsCover(f, addrs) && AllWellFormed(f, refs) && ValuesCover(refs, st.values)
    requires UpdatedAll(f, addrs, st, refs).Returned?
    requires i < |refs| && Published(f, refs[i]) && NameAt(f, refs[i]) !in st.table
    requires forall j :: 0 <= j < i && Published(f, refs[j]) ==> NameAt(f, refs[j]) != NameAt(f, refs[i])
    requires forall j :: i < j < |refs| ==> refs[j].key != refs[i].key
    ensures NameAt(f, refs[i]) in UpdatedAll(f, addrs, st, refs).value.table
    ensures UpdatedAll(f, addrs, st, refs).value.table[NameAt(f, refs[i])] == UpdatedAll(f, addrs, st, refs).value.values[refs[i].key]
    decreases |refs|
  {
    if i == 0 {
      UpdatePublishesHead(f, addrs, st, refs);
    } else {
      UpdatedAllStep(f, addrs, st, refs);
      var st1 := UpdatedEntry(f, addrs, st, refs[0]).value;
      UpdatedEntryPublishes(f, addrs, st, refs[0]);
      FirstPublisherShift(f, refs, i);
      UpdatePublishes(f, addrs, st1, refs[1..], i - 1);
    }
  }

  /** The keys of the entries the pass may rewrite: the named ones. */
  function NamedKeys(f: ElfFile, refs: seq<SymRef>): set<nat>
    requires forall r :: r in refs ==> r.key in f.image.syms
  {
    set r | r in refs && SymOf(f, r).st_name != 0 :: r.key
  }

  /** Entries without a name, and entries the walk does not meet, keep
      their value. */
  lemma {:induction false} UpdateKeepsUnnamed(f: ElfFile, addrs: map<nat, bv32>, st: SymState, refs: seq<SymRef>)
    requires WellFormed(f) && AddrsCover(f, addrs) && AllWellFormed(f, refs) && ValuesCover(refs, st.values)
    requires UpdatedAll(f, addrs, st, refs).Returned?
    ensures forall k :: k in st.values && k !in NamedKeys(f, refs) ==> UpdatedAll(f, addrs, st, refs).value.values[k] == st.values[k]
    decreases |refs|
  {
    if refs != [] {
      assert refs[0] in refs;
      assert forall r :: r in refs[1..] ==> r in refs;
      var st1 := UpdatedEntry(f, addrs, st, refs[0]).value;
      UpdateKeepsUnnamed(f, addrs, st1, refs[1..]);
      assert NamedKeys(f, refs[1..]) <= NamedKeys(f, refs);
    }
  }

  // ---------------------------------------------------------------------
  // relocate_symbols_with

  /** One relocation entry met while walking the RELA sections: where the
      entry lies, where the symbol it names lies (in the table `sh_link`
      names) and where the header of its target section (`sh_info`) lies. */
  datatype RelaRef = RelaRef(rela: nat, sym: nat, dst: nat, kind: RelaType)

  predicate RelaRefOk(f: ElfFile, rr: RelaRef)
  {
    && rr.rela in f.image.relas && IsKnownRelaType(RawRelaType(f.image.relas[rr.rela]))
    && rr.kind == RelaTypeOf(f.image.relas[rr.rela])
    && rr.sym in f.image.syms && rr.dst in f.image.shdrs
  }

  /** Entry `k` of RELA section `i`, resolved to its symbol and target. */
  predicate FromRelaEntry(f: ElfFile, rr: RelaRef, i: nat, k: nat)
    requires WellFormed(f)
  {
    && i < ShNum(f)
    && Hdr(f, i).sh_type == SHT_RELA
    && SectionWellFormed(f, i)
    && k < EntryCount(Hdr(f, i))
    && rr.rela == RelaKey(Hdr(f, i), k)
    && rr.sym == SymKey(Hdr(f, Hdr(f, i).sh_link), SymbolOffset(f.image.relas[RelaKey(Hdr(f, i), k)]))
    && rr.dst == ShKey(f, Hdr(f, i).sh_info)
  }

  /** The entries of section `i`, in table order, when it is a RELA. */
  function SectionRelaRefs(f: ElfFile, i: nat): (refs: seq<RelaRef>)
    requires WellFormed(f) && i < ShNum(f)
    ensures forall rr :: rr in refs ==> RelaRefOk(f, rr) && exists k :: FromRelaEntry(f, rr, i, k)
  {
    assert SectionWellFormed(f, i);
    var sh := Hdr(f, i);
    if sh.sh_type != SHT_RELA then []
    else
      var symsec := Hdr(f, sh.sh_link);
      var dst := ShKey(f, sh.sh_info);
      var refs := seq(EntryCount(sh), k requires 0 <= k < EntryCount(sh) =>
                        var rela := f.image.relas[RelaKey(sh, k)];
                        RelaRef(RelaKey(sh, k), SymKey(symsec, SymbolOffset(rela)), dst, RelaTypeOf(rela)));
      assert forall rr :: rr in refs ==> exists k :: 0 <= k < EntryCount(sh) && rr == refs[k];
      assert forall k :: 0 <= k < EntryCount(sh) ==> RelaRefOk(f, refs[k]) && FromRelaEntry(f, refs[k], i, k);
      refs
  }

  /** The entries of the RELA sections among the first `n`. */
  function RelaRefsUpTo(f: ElfFile, n: nat): (refs: seq<RelaRef>)
    requires WellFormed(f) && n <= ShNum(f)
    ensures forall rr :: rr in refs ==> RelaRefOk(f, rr) && exists i: nat, k: nat :: i < n && FromRelaEntry(f, rr, i, k)
  {
    if n == 0 then [] else RelaRefsUpTo(f, n - 1) + SectionRelaRefs(f, n - 1)
  }

  /** Every relocation entry of the image, section by section. Each one is
      entry `k` of a RELA section `i`, names a symbol of the table
      `sh_link` of `i` and patches the section `sh_info` of `i`. */
  function RelaRefs(f: ElfFile): (refs: seq<RelaRef>)
    requires WellFormed(f)
    ensures forall rr :: rr in refs ==> RelaRefOk(f, rr) && exists i: nat, k: nat :: FromRelaEntry(f, rr, i, k)
  {
    RelaRefsUpTo(f, ShNum(f))
  }

  predicate RelaRefsCover(f: ElfFile, values: map<nat, bv32>, addrs: map<nat, bv32>, refs: seq<RelaRef>)
  {
    forall rr :: rr in refs ==> rr.rela in f.image.relas && rr.sym in values && rr.dst in addrs
  }

  /** Where an entry patches: `sh_addr` of its target section plus
      `r_offset`, wrapping. */
  function TargetAddr(f: ElfFile, addrs: map<nat, bv32>, rr: RelaRef): bv32
    requires rr.rela in f.image.relas && rr.dst in addrs
  {
    addrs[rr.dst] + f.image.relas[rr.rela].r_offset
  }

  /** One entry of the pass: patch the entry's target address for the value
      of its symbol. */
  function RelaStep(f: ElfFile, values: map<nat, bv32>, addrs: map<nat, bv32>, m: seq<bv8>, rr: RelaRef): (o: Outcome<seq<bv8>>)
    requires rr.rela in f.image.relas && rr.sym in values && rr.dst in addrs
    ensures o.Returned? ==> |o.value| == |m|
  {
    Relocation.Relocated(m, rr.kind, values[rr.sym], f.image.relas[rr.rela].r_addend, TargetAddr(f, addrs, rr))
  }

  /** Memory after applying `refs` in order with the symbol values `values`
      and section addresses `addrs`, stopping at the first panic. */
  function RelocatedAll(f: ElfFile, values: map<nat, bv32>, addrs: map<nat, bv32>, m: seq<bv8>, refs: seq<RelaRef>): (o: Outcome<seq<bv8>>)
    requires RelaRefsCover(f, values, addrs, refs)
    decreases |refs|
  {
    if refs == [] then Returned(m)
    else
      var o := RelaStep(f, values, addrs, m, refs[0]);
      if o.Halted? then o else RelocatedAll(f, values, addrs, o.value, refs[1..])
  }

  /** The pass over `refs` is its first step followed by the pass over the rest. */
  lemma RelocatedAllStep(f: ElfFile, values: map<nat, bv32>, addrs: map<nat, bv32>, m: seq<bv8>, refs: seq<RelaRef>)
    requires RelaRefsCover(f, values, addrs, refs) && refs != []
    ensures RelaRefsCover(f, values, addrs, refs[1..])
    ensures RelocatedAll(f, values, addrs, m, refs)
         == var o := RelaStep(f, values, addrs, m, refs[0]);
            if o.Halted? then o else RelocatedAll(f, values, addrs, o.value, refs[1..])
  {
  }

  /** One iteration of `relocate_symbols_with`: the entry's type, symbol and
      target address are read from the image and `relocate_add` applies it. */
  method RelocateEntry(f: ElfFile, mem: array<bv8>, rr: RelaRef) returns (fault: Option<Fault>)
    requires f.image.Valid() && RelaRefOk(f, rr) && rr.dst in f.image.shAddr
    modifies mem
    ensures RelaStep(f, f.image.stValue, f.image.shAddr, old(mem[..]), rr)
         == if fault.None? then Returned(mem[..]) else Halted(fault.value)
  {
    var rela := f.image.relas[rr.rela];
    var addr := TargetAddr(f, f.image.shAddr, rr);
    fault := Relocation.RelocateAdd(mem, rela, f.image.Sym(rr.sym), addr);
  }

  /** Every entry of the image finds its symbol's value and its target's
      `sh_addr` in the image. */
  lemma RelaRefsCovered(f: ElfFile)
    requires WellFormed(f) && f.image.Valid()
    ensures RelaRefsCover(f, f.image.stValue, f.image.shAddr, RelaRefs(f))
  {
    forall rr | rr in RelaRefs(f)
      ensures rr.rela in f.image.relas && rr.sym in f.image.stValue && rr.dst in f.image.shAddr
    {
      assert RelaRefOk(f, rr);
    }
  }

  /** `relocate_symbols_with`: applies every relocation of the image with
      the current symbol values and section addresses. */
  method RelocateSymbolsWith(em: ElfModule, f: ElfFile, mem: array<bv8>) returns (fault: Option<Fault>)
    requires WellFormed(f) && f.image.Valid()
    modifies mem
    ensures RelaRefsCover(f, f.image.stValue, f.image.shAddr, RelaRefs(f))
    ensures RelocatedAll(f, f.image.stValue, f.image.shAddr, old(mem[..]), RelaRefs(f))
         == if fault.None? then Returned(mem[..]) else Halted(fault.value)
  {
    var refs := RelaRefs(f);
    RelaRefsCovered(f);
    ghost var values, addrs := f.image.stValue, f.image.shAddr;
    ghost var start := mem[..];
    var k := 0;
    fault := None;
    while k < |refs|
      invariant 0 <= k <= |refs|
      invariant fault.None?
      invariant forall j :: k <= j < |refs| ==> RelaRefOk(f, refs[j])
      invariant RelaRefsCover(f, values, addrs, refs[k..])
      invariant RelocatedAll(f, values, addrs, start, refs) == RelocatedAll(f, values, addrs, mem[..], refs[k..])
    {
      var rr := refs[k];
      assert refs[k..][0] == rr && refs[k..][1..] == refs[k + 1..];
      RelocatedAllStep(f, values, addrs, mem[..], refs[k..]);
      fault := RelocateEntry(f, mem, rr);
      if fault.Some? {
        return;
      }
      k := k + 1;
    }
    assert refs[k..] == [];
  }

  /** A relocation pass that succeeds keeps the size of memory. */
  lemma {:induction false} RelocatedAllLength(f: ElfFile, values: map<nat, bv32>, addrs: map<nat, bv32>, m: seq<bv8>, refs: seq<RelaRef>)
    requires RelaRefsCover(f, values, addrs, refs)
    ensures RelocatedAll(f, values, addrs, m, refs).Returned? ==> |RelocatedAll(f, values, addrs, m, refs).value| == |m|
    decreases |refs|
  {
    if refs != [] {
      var o := RelaStep(f, values, addrs, m, refs[0]);
      if o.Returned? {
        RelocatedAllLength(f, values, addrs, o.value, refs[1..]);
      }
    }
  }

  /** Entries of the kinds RELAX, PCREL_LO12_I and PCREL_LO12_S alone leave
      memory untouched. */
  lemma {:induction false} RelocatedAllNoOps(f: ElfFile, values: map<nat, bv32>, addrs: map<nat, bv32>, m: seq<bv8>, refs: seq<RelaRef>)
    requires RelaRefsCover(f, values, addrs, refs)
    requires forall rr :: rr in refs ==> rr.kind == RELAX || rr.kind == PCREL_LO12_I || rr.kind == PCREL_LO12_S
    ensures RelocatedAll(f, values, addrs, m, refs) == Returned(m)
    decreases |refs|
  {
    if refs != [] {
      assert refs[0] in refs;
      assert forall r :: r in refs[1..] ==> r in refs;
      RelocatedAllStep(f, values, addrs, m, refs);
      NoOpStep(f, values, addrs, m, refs[0]);
      RelocatedAllNoOps(f, values, addrs, m, refs[1..]);
    }
  }

  /** A single entry of a kind that does nothing leaves memory as it is. */
  lemma NoOpStep(f: ElfFile, values: map<nat, bv32>, addrs: map<nat, bv32>, m: seq<bv8>, rr: RelaRef)
    requires rr.rela in f.image.relas && rr.sym in values && rr.dst in addrs
    requires rr.kind == RELAX || rr.kind == PCREL_LO12_I || rr.kind == PCREL_LO12_S
    ensures RelaStep(f, values, addrs, m, rr) == Returned(m)
  {
    Relocation.NoOpKinds(m, rr.kind, values[rr.sym], f.image.relas[rr.rela].r_addend, TargetAddr(f, addrs, rr));
  }
}
