/** The registry of loaded modules (src/elf_module.rs, `ElfModuleRoot`):
    loading an image into a new module, symbol lookup across modules, and
    unloading. Modules are identified by handles instead of `Rc` pointers;
    a `Weak` link upgrades exactly when its target is still registered. */
module Registry {
  import opened Common
  import opened Elf
  import opened ElfModules
  import opened Memory

  /** One entry of the `modules` list: the module and its identity. */
  datatype Slot = Slot(handle: Handle, elfModule: ElfModule)

  // ---------------------------------------------------------------------
  // find_symbol / find_symbol_and_weak

  /** Module `i` is the first in list order whose table has `name`. */
  predicate IsFirstProvider(ms: seq<Slot>, name: Name, i: nat)
  {
    i < |ms| && name in ms[i].elfModule.symbolInfo
    && forall j :: 0 <= j < i ==> name !in ms[j].elfModule.symbolInfo
  }

  /** `ElfModuleRoot::find_symbol`: the `find_map` of `ElfModule::find_symbol`. */
  function FindSymbolIn(ms: seq<Slot>, name: Name): Option<bv32>
    decreases |ms|
  {
    if ms == [] then None
    else
      var here := FindSymbol(ms[0].elfModule, name);
      if here.Some? then here else FindSymbolIn(ms[1..], name)
  }

  /** `ElfModuleRoot::find_symbol_and_weak`: the same lookup, paired with a
      link to the module that provides the name. */
  function FindSymbolAndWeakIn(ms: seq<Slot>, name: Name): Option<(bv32, WeakRef)>
    decreases |ms|
  {
    if ms == [] then None
    else
      var here := FindSymbol(ms[0].elfModule, name);
      if here.Some? then Some((here.value, Weak(ms[0].handle))) else FindSymbolAndWeakIn(ms[1..], name)
  }

  /** Lookup is earliest-module-first: it finds a name exactly when some
      module has it, and then returns the address of the first such module. */
  lemma {:induction false} FindSymbolFirst(ms: seq<Slot>, name: Name)
    ensures FindSymbolIn(ms, name).Some? <==> exists i :: 0 <= i < |ms| && name in ms[i].elfModule.symbolInfo
    ensures forall i: nat :: IsFirstProvider(ms, name, i) ==> FindSymbolIn(ms, name) == Some(ms[i].elfModule.symbolInfo[name])
    decreases |ms|
  {
    if ms != [] {
      FindSymbolFirst(ms[1..], name);
      forall i: nat | IsFirstProvider(ms, name, i)
        ensures FindSymbolIn(ms, name) == Some(ms[i].elfModule.symbolInfo[name])
      {
        if i > 0 {
          assert IsFirstProvider(ms[1..], name, i - 1);
        }
      }
      if FindSymbolIn(ms, name).None? {
        assert forall i :: 1 <= i < |ms| ==> ms[i] == ms[1..][i - 1];
      } else if name !in ms[0].elfModule.symbolInfo {
        var i :| 0 <= i < |ms[1..]| && name in ms[1..][i].elfModule.symbolInfo;
        assert ms[i + 1] == ms[1..][i];
      }
    }
  }

  /** `find_symbol_and_weak` finds what `find_symbol` finds, paired with
      the first module that has the name. */
  lemma {:induction false} FindSymbolAndWeakAgrees(ms: seq<Slot>, name: Name)
    ensures FindSymbolAndWeakIn(ms, name).Some? <==> FindSymbolIn(ms, name).Some?
    ensures FindSymbolAndWeakIn(ms, name).Some? ==> FindSymbolAndWeakIn(ms, name).value.0 == FindSymbolIn(ms, name).value
    ensures forall i: nat :: IsFirstProvider(ms, name, i) ==> FindSymbolAndWeakIn(ms, name) == Some((ms[i].elfModule.symbolInfo[name], Weak(ms[i].handle)))
    decreases |ms|
  {
    if ms != [] {
      FindSymbolAndWeakAgrees(ms[1..], name);
      forall i: nat | IsFirstProvider(ms, name, i)
        ensures FindSymbolAndWeakIn(ms, name) == Some((ms[i].elfModule.symbolInfo[name], Weak(ms[i].handle)))
      {
        if i > 0 {
          assert IsFirstProvider(ms[1..], name, i - 1);
        }
      }
    }
  }

  // ---------------------------------------------------------------------
  // load_elf_file

  /** The import `load_elf_file` builds for an undefined name: the lookup's
      address and provider, or the null address and `Weak::default()`. */
  function Resolve(ms: seq<Slot>, name: Name): (x: Import)
    ensures x.name == name
  {
    var found := FindSymbolAndWeakIn(ms, name);
    if found.Some? then Import(name, found.value.0, found.value.1) else Import(name, 0, Dangling)
  }

  /** The imports of an image, one per undefined name, in order. */
  function Imports(ms: seq<Slot>, names: seq<Name>): (xs: seq<Import>)
    ensures |xs| == |names| && forall i :: 0 <= i < |names| ==> xs[i] == Resolve(ms, names[i])
  {
    seq(|names|, i requires 0 <= i < |names| => Resolve(ms, names[i]))
  }

  /** Some import came back null: no module has the name, or the first one
      that has it maps it to address 0. */
  predicate Unresolved(xs: seq<Import>)
  {
    exists i :: 0 <= i < |xs| && xs[i].addr == 0
  }

  /** Some defined name of the image, local ones included, is already
      provided by a registered module. */
  predicate Conflicts(ms: seq<Slot>, names: seq<Name>)
  {
    exists i :: 0 <= i < |names| && FindSymbolIn(ms, names[i]).Some?
  }

  /** Why `load_elf_file` gives up before allocating anything. */
  predicate Refused(ms: seq<Slot>, f: ElfFile)
    requires WellFormed(f)
  {
    Unresolved(Imports(ms, GetUndefinedSymbolNames(f))) || Conflicts(ms, GetAllSymbolNames(f))
  }

  /** An import is unresolved exactly when its name has no provider, or the
      first provider maps it to 0. */
  lemma ResolveNull(ms: seq<Slot>, name: Name)
    ensures Resolve(ms, name).addr == 0 <==> FindSymbolIn(ms, name).None? || FindSymbolIn(ms, name).value == 0
  {
    FindSymbolAndWeakAgrees(ms, name);
  }

  /** The module `new().alloc_memory_with(..).fill_undefined_symbols(..)`
      builds before it touches the image. */
  function Fresh(f: ElfFile, imports: seq<Import>, textBase: nat, dataBase: nat): ElfModule
    requires WellFormed(f)
  {
    var n := CalculateNeededSize(f);
    Filled(New().(textInfo := Allocation(n.text, textBase), dataInfo := Allocation(n.data, dataBase)), imports)
  }

  /** The fresh module has no dependents, one provider per import, and the
      blocks of the allocation. */
  lemma FreshShape(f: ElfFile, imports: seq<Import>, textBase: nat, dataBase: nat)
    requires WellFormed(f)
    ensures Fresh(f, imports, textBase, dataBase).dependents == []
    ensures Fresh(f, imports, textBase, dataBase).dependencies == Providers(imports)
    ensures Fresh(f, imports, textBase, dataBase).textInfo == Allocation(CalculateNeededSize(f).text, textBase)
    ensures Fresh(f, imports, textBase, dataBase).dataInfo == Allocation(CalculateNeededSize(f).data, dataBase)
  {
    var n := CalculateNeededSize(f);
    FilledLinks(New().(textInfo := Allocation(n.text, textBase), dataInfo := Allocation(n.data, dataBase)), imports);
  }

  /** What the allocator promises makes the fresh module's blocks fit
      memory and not overlap. */
  lemma FreshFits(f: ElfFile, imports: seq<Import>, len: nat, textBase: nat, dataBase: nat)
    requires WellFormed(f) && AllocatorOk(f, len, textBase, dataBase)
    ensures RegionsFit(f, Fresh(f, imports, textBase, dataBase), len)
    ensures RegionsDisjoint(Fresh(f, imports, textBase, dataBase))
  {
    FreshShape(f, imports, textBase, dataBase);
  }

  /** Memory once `alloc_memory_with` has zeroed the blocks it got. */
  function Zeroed(f: ElfFile, m: seq<bv8>, textBase: nat, dataBase: nat): (z: seq<bv8>)
    requires WellFormed(f) && AllocatorOk(f, |m|, textBase, dataBase)
    ensures |z| == |m|
  {
    var n := CalculateNeededSize(f);
    ZeroRegion(ZeroRegion(m, Allocation(n.text, textBase)), Allocation(n.data, dataBase))
  }

  /** Every section header has an `sh_addr`, every symbol a value: then every
      lookup of the symbol and relocation passes is defined. */
  lemma CoverFromKeys(f: ElfFile, addrs: map<nat, bv32>, values: map<nat, bv32>)
    requires WellFormed(f) && addrs.Keys == f.image.shdrs.Keys && values.Keys == f.image.syms.Keys
    ensures AddrsCover(f, addrs) && ValuesCover(SymRefs(f), values)
    ensures RelaRefsCover(f, values, addrs, RelaRefs(f))
  {
    forall r | r in SymRefs(f) ensures r.key in values {
      assert RefWellFormed(f, r);
    }
    forall rr | rr in RelaRefs(f) ensures rr.rela in f.image.relas && rr.sym in values && rr.dst in addrs {
      assert RelaRefOk(f, rr);
    }
  }

  /** What a module, memory and the two rewritten image fields are once the
      pipeline has run. */
  datatype Built = Built(elfModule: ElfModule, mem: seq<bv8>, addrs: map<nat, bv32>, values: map<nat, bv32>)

  /** `load_into_memory`, `update_symbol_value_with` and
      `relocate_symbols_with` in turn on module `em`, memory `m`, section
      addresses `a` and symbol values `v`, stopping at the first panic. */
  function Pipeline(f: ElfFile, em: ElfModule, m: seq<bv8>, a: map<nat, bv32>, v: map<nat, bv32>): (o: Outcome<Built>)
    requires WellFormed(f) && RegionsFit(f, em, |m|)
    requires a.Keys == f.image.shdrs.Keys && v.Keys == f.image.syms.Keys
    ensures o.Returned? ==> o.value.addrs.Keys == a.Keys && o.value.values.Keys == v.Keys && |o.value.mem| == |m|
  {
    var loaded := LoadedUpTo(f, em, m, ShNum(f));
    var addrs := AddressesUpTo(f, em, a, ShNum(f));
    LoadedAddresses(f, em, a, ShNum(f));
    CoverFromKeys(f, addrs, v);
    var upd := UpdatedAll(f, addrs, SymState(v, em.symbolInfo), SymRefs(f));
    if upd.Halted? then Halted(upd.fault)
    else
      CoverFromKeys(f, addrs, upd.value.values);
      var rel := RelocatedAll(f, upd.value.values, addrs, loaded, RelaRefs(f));
      if rel.Halted? then Halted(rel.fault)
      else
        RelocatedAllLength(f, upd.value.values, addrs, loaded, RelaRefs(f));
        Returned(Built(em.(symbolInfo := upd.value.table), rel.value, addrs, upd.value.values))
  }

  /** The whole per-module pipeline of `load_elf_file` for `imports`. */
  function Assembled(f: ElfFile, imports: seq<Import>, m: seq<bv8>, textBase: nat, dataBase: nat,
                     a: map<nat, bv32>, v: map<nat, bv32>): Outcome<Built>
    requires WellFormed(f) && AllocatorOk(f, |m|, textBase, dataBase)
    requires a.Keys == f.image.shdrs.Keys && v.Keys == f.image.syms.Keys
  {
    FreshFits(f, imports, |m|, textBase, dataBase);
    Pipeline(f, Fresh(f, imports, textBase, dataBase), Zeroed(f, m, textBase, dataBase), a, v)
  }

  /** The pipeline leaves a module with no dependents and one provider
      link per import, and keeps the blocks it was given. */
  lemma AssembledShape(f: ElfFile, imports: seq<Import>, m: seq<bv8>, textBase: nat, dataBase: nat,
                       a: map<nat, bv32>, v: map<nat, bv32>)
    requires WellFormed(f) && AllocatorOk(f, |m|, textBase, dataBase)
    requires a.Keys == f.image.shdrs.Keys && v.Keys == f.image.syms.Keys
    requires Assembled(f, imports, m, textBase, dataBase, a, v).Returned?
    ensures Assembled(f, imports, m, textBase, dataBase, a, v).value.elfModule.dependents == []
    ensures Assembled(f, imports, m, textBase, dataBase, a, v).value.elfModule.dependencies == Providers(imports)
    ensures Assembled(f, imports, m, textBase, dataBase, a, v).value.elfModule.textInfo == Allocation(CalculateNeededSize(f).text, textBase)
    ensures Assembled(f, imports, m, textBase, dataBase, a, v).value.elfModule.dataInfo == Allocation(CalculateNeededSize(f).data, dataBase)
  {
    FreshShape(f, imports, textBase, dataBase);
  }

  /** The pipeline of `load_elf_file`, on the module built from `imports`. */
  method Instantiate(f: ElfFile, imports: seq<Import>, mem: array<bv8>, textBase: nat, dataBase: nat) returns (r: Outcome<ElfModule>)
    requires WellFormed(f) && f.image.Valid() && AllocatorOk(f, mem.Length, textBase, dataBase)
    modifies mem, f.image`shAddr, f.image`stValue
    ensures f.image.Valid()
    ensures var p := Assembled(f, imports, old(mem[..]), textBase, dataBase, old(f.image.shAddr), old(f.image.stValue));
            if p.Halted? then r == Halted(p.fault)
            else r == Returned(p.value.elfModule) && mem[..] == p.value.mem
                 && f.image.shAddr == p.value.addrs && f.image.stValue == p.value.values
  {
    ghost var start := Fresh(f, imports, textBase, dataBase);
    FreshFits(f, imports, mem.Length, textBase, dataBase);
    ghost var a0, v0 := f.image.shAddr, f.image.stValue;
    var em := New();
    em := AllocMemoryWith(em, f, mem, textBase, dataBase);
    assert mem[..] == Zeroed(f, old(mem[..]), textBase, dataBase);
    em := FillUndefinedSymbols(em, imports);
    assert em == start;
    LoadIntoMemory(em, f, mem);
    var updated := UpdateSymbolValueWith(em, f);
    if updated.Halted? {
      return Halted(updated.fault);
    }
    em := updated.value;
    var fault := RelocateSymbolsWith(em, f, mem);
    if fault.Some? {
      return Halted(fault.value);
    }
    r := Returned(em);
  }

  /** Every module has an empty `dependents` list. */
  predicate NoDependents(ms: seq<Slot>)
  {
    forall i :: 0 <= i < |ms| ==> ms[i].elfModule.dependents == []
  }

  /** No two modules share a handle. */
  predicate DistinctHandles(ms: seq<Slot>)
  {
    forall i, j :: 0 <= i < j < |ms| ==> ms[i].handle != ms[j].handle
  }

  /** Every handle is below `n`. */
  predicate HandlesBelow(ms: seq<Slot>, n: nat)
  {
    forall i :: 0 <= i < |ms| ==> ms[i].handle < n
  }

  /** The handle is registered. */
  predicate Registered(ms: seq<Slot>, h: Handle)
  {
    exists i :: 0 <= i < |ms| && ms[i].handle == h
  }

  /** Appending a module under a new handle keeps the registry invariants. */
  lemma AppendKeeps(ms: seq<Slot>, n: nat, m: ElfModule)
    requires DistinctHandles(ms) && HandlesBelow(ms, n) && NoDependents(ms) && m.dependents == []
    ensures DistinctHandles(ms + [Slot(n, m)]) && HandlesBelow(ms + [Slot(n, m)], n + 1)
    ensures NoDependents(ms + [Slot(n, m)])
    ensures Registered(ms + [Slot(n, m)], n) && !Registered(ms, n)
  {
    assert (ms + [Slot(n, m)])[|ms|].handle == n;
  }

  /** The registry invariants: handles are distinct and below the next one,
      and no module has a dependent, since no code path ever adds one. */
  predicate RootValid(ms: seq<Slot>, n: nat)
  {
    DistinctHandles(ms) && HandlesBelow(ms, n) && NoDependents(ms)
  }

  /** The state `load_elf_file` leaves behind when it returns: its answer,
      the module list, the next handle, memory, and the image's `sh_addr`
      and `st_value` fields. */
  datatype AfterLoad = AfterLoad(answer: Option<Handle>, modules: seq<Slot>, nextHandle: nat, mem: seq<bv8>,
                                 addrs: map<nat, bv32>, values: map<nat, bv32>)

  /** `load_elf_file` on list `ms` with next handle `n`, memory `m` and the
      image's current `sh_addr` / `st_value` fields `a` / `v`. */
  function LoadElf(ms: seq<Slot>, n: nat, f: ElfFile, m: seq<bv8>, textBase: nat, dataBase: nat,
                   a: map<nat, bv32>, v: map<nat, bv32>): Outcome<AfterLoad>
    requires WellFormed(f) && AllocatorOk(f, |m|, textBase, dataBase)
    requires a.Keys == f.image.shdrs.Keys && v.Keys == f.image.syms.Keys
  {
    if Refused(ms, f) then Returned(AfterLoad(None, ms, n, m, a, v))
    else
      var p := Assembled(f, Imports(ms, GetUndefinedSymbolNames(f)), m, textBase, dataBase, a, v);
      if p.Halted? then Halted(p.fault)
      else Returned(AfterLoad(Some(n), ms + [Slot(n, p.value.elfModule)], n + 1, p.value.mem, p.value.addrs, p.value.values))
  }

  /** `load_elf_file` answers `None` exactly when it refuses the image, and
      then changes nothing; otherwise it answers with the new handle, which was
      not registered, and appends exactly one module under it, leaving the
      earlier ones as they were. The registry invariants are kept. */
  lemma LoadOutcomes(ms: seq<Slot>, n: nat, f: ElfFile, m: seq<bv8>, textBase: nat, dataBase: nat,
                     a: map<nat, bv32>, v: map<nat, bv32>)
    requires WellFormed(f) && AllocatorOk(f, |m|, textBase, dataBase)
    requires a.Keys == f.image.shdrs.Keys && v.Keys == f.image.syms.Keys
    requires RootValid(ms, n)
    ensures Refused(ms, f) ==> LoadElf(ms, n, f, m, textBase, dataBase, a, v) == Returned(AfterLoad(None, ms, n, m, a, v))
    ensures var o := LoadElf(ms, n, f, m, textBase, dataBase, a, v);
            o.Returned? ==> (o.value.answer.None? <==> Refused(ms, f))
    ensures var o := LoadElf(ms, n, f, m, textBase, dataBase, a, v);
            o.Returned? && o.value.answer.Some? ==>
              && !Refused(ms, f) && o.value.answer.value == n && !Registered(ms, n)
              && |o.value.modules| == |ms| + 1 && o.value.modules[..|ms|] == ms
              && o.value.modules[|ms|].handle == n && o.value.nextHandle == n + 1
              && RootValid(o.value.modules, o.value.nextHandle)
              && o.value.modules[|ms|].elfModule.dependencies == Providers(Imports(ms, GetUndefinedSymbolNames(f)))
  {
    var o := LoadElf(ms, n, f, m, textBase, dataBase, a, v);
    if o.Returned? && o.value.answer.Some? {
      var imports := Imports(ms, GetUndefinedSymbolNames(f));
      AssembledShape(f, imports, m, textBase, dataBase, a, v);
      var p := Assembled(f, imports, m, textBase, dataBase, a, v);
      AppendKeeps(ms, n, p.value.elfModule);
      assert (ms + [Slot(n, p.value.elfModule)])[..|ms|] == ms;
    }
  }

  /** A module appended at the back is only consulted for names no earlier
      module provides: loading never shadows a symbol already registered. */
  lemma {:induction false} FindSymbolAppend(ms: seq<Slot>, x: Slot, name: Name)
    ensures FindSymbolIn(ms + [x], name) == if FindSymbolIn(ms, name).Some? then FindSymbolIn(ms, name) else FindSymbol(x.elfModule, name)
    decreases |ms|
  {
    if ms == [] {
      assert [x][1..] == [];
    } else {
      assert (ms + [x])[1..] == ms[1..] + [x];
      FindSymbolAppend(ms[1..], x, name);
    }
  }

  /** The two checks `load_elf_file` makes before it allocates: every
      import resolved to a non-null address, and no defined name taken. */
  method CheckImage(ms: seq<Slot>, f: ElfFile) returns (refused: bool)
    requires WellFormed(f)
    ensures refused == Refused(ms, f)
  {
    var undefined := GetUndefinedSymbolNames(f);
    var imports := Imports(ms, undefined);
    if exists i :: 0 <= i < |imports| && imports[i].addr == 0 {
      return true;
    }
    var defined := GetAllSymbolNames(f);
    refused := exists i :: 0 <= i < |defined| && FindSymbolIn(ms, defined[i]).Some?;
  }

  /** While every import resolved to a non-null address, each entry the
      imports put into a table agrees with the registry's lookup. */
  lemma {:induction false} FilledResolved(ms: seq<Slot>, em: ElfModule, imports: seq<Import>)
    requires forall i :: 0 <= i < |imports| ==> imports[i] == Resolve(ms, imports[i].name) && imports[i].addr != 0
    requires forall name :: name in em.symbolInfo ==> FindSymbolIn(ms, name) == Some(em.symbolInfo[name])
    ensures forall name :: name in Filled(em, imports).symbolInfo ==> FindSymbolIn(ms, name) == Some(Filled(em, imports).symbolInfo[name])
    decreases |imports|
  {
    if imports != [] {
      var p := imports[..|imports| - 1];
      var x := imports[|imports| - 1];
      assert forall i :: 0 <= i < |p| ==> p[i] == imports[i];
      FilledResolved(ms, em, p);
      FindSymbolAndWeakAgrees(ms, x.name);
    }
  }

  /** When every import resolved, each entry of the fresh module's table
      holds the address the registry's lookup gives for its name. */
  lemma FreshResolved(ms: seq<Slot>, f: ElfFile, textBase: nat, dataBase: nat)
    requires WellFormed(f) && !Unresolved(Imports(ms, GetUndefinedSymbolNames(f)))
    ensures var t := Fresh(f, Imports(ms, GetUndefinedSymbolNames(f)), textBase, dataBase).symbolInfo;
            forall name :: name in t ==> FindSymbolIn(ms, name) == Some(t[name])
  {
    var imports := Imports(ms, GetUndefinedSymbolNames(f));
    var n := CalculateNeededSize(f);
    forall i | 0 <= i < |imports| ensures imports[i] == Resolve(ms, imports[i].name) && imports[i].addr != 0 {
    }
    FilledResolved(ms, New().(textInfo := Allocation(n.text, textBase), dataInfo := Allocation(n.data, dataBase)), imports);
  }

  /** The pipeline keeps every address the module's table already held,
      publishes every defined GLOBAL entry's name, and adds no other name. */
  lemma PipelineTable(f: ElfFile, em: ElfModule, m: seq<bv8>, a: map<nat, bv32>, v: map<nat, bv32>)
    requires WellFormed(f) && RegionsFit(f, em, |m|)
    requires a.Keys == f.image.shdrs.Keys && v.Keys == f.image.syms.Keys
    requires Pipeline(f, em, m, a, v).Returned?
    ensures var t := Pipeline(f, em, m, a, v).value.elfModule.symbolInfo;
            && (forall name :: name in em.symbolInfo ==> name in t && t[name] == em.symbolInfo[name])
            && (forall r :: r in SymRefs(f) && Published(f, r) ==> NameAt(f, r) in t)
            && (forall name :: name in t ==>
                  name in em.symbolInfo || exists r :: r in SymRefs(f) && Published(f, r) && NameAt(f, r) == name)
  {
    var addrs := AddressesUpTo(f, em, a, ShNum(f));
    LoadedAddresses(f, em, a, ShNum(f));
    CoverFromKeys(f, addrs, v);
    UpdateTable(f, addrs, SymState(v, em.symbolInfo), SymRefs(f));
  }

  /** The first defined GLOBAL entry of a name the module does not yet have
      gives the name its address in the built table: that symbol's final,
      rebased `st_value`, unless a later entry of the walk is the same
      symbol again. */
  lemma PipelinePublishes(f: ElfFile, em: ElfModule, m: seq<bv8>, a: map<nat, bv32>, v: map<nat, bv32>, i: nat)
    requires WellFormed(f) && RegionsFit(f, em, |m|)
    requires a.Keys == f.image.shdrs.Keys && v.Keys == f.image.syms.Keys
    requires Pipeline(f, em, m, a, v).Returned?
    requires i < |SymRefs(f)| && Published(f, SymRefs(f)[i]) && NameAt(f, SymRefs(f)[i]) !in em.symbolInfo
    requires forall j :: 0 <= j < i && Published(f, SymRefs(f)[j]) ==> NameAt(f, SymRefs(f)[j]) != NameAt(f, SymRefs(f)[i])
    requires forall j :: i < j < |SymRefs(f)| ==> SymRefs(f)[j].key != SymRefs(f)[i].key
    ensures var b := Pipeline(f, em, m, a, v).value;
            && NameAt(f, SymRefs(f)[i]) in b.elfModule.symbolInfo
            && b.elfModule.symbolInfo[NameAt(f, SymRefs(f)[i])] == b.values[SymRefs(f)[i].key]
  {
    var addrs := AddressesUpTo(f, em, a, ShNum(f));
    LoadedAddresses(f, em, a, ShNum(f));
    CoverFromKeys(f, addrs, v);
    UpdatePublishes(f, addrs, SymState(v, em.symbolInfo), SymRefs(f), i);
  }

  /** A module `load_elf_file` registers is found by the registry's lookup
      under every name of its table, with the address its table holds: its
      imports because they came from that lookup, its published names because
      no earlier module has them. Every defined GLOBAL entry of the image is
      among those names. */
  lemma LoadThenFind(ms: seq<Slot>, n: nat, f: ElfFile, m: seq<bv8>, textBase: nat, dataBase: nat,
                     a: map<nat, bv32>, v: map<nat, bv32>)
    requires WellFormed(f) && AllocatorOk(f, |m|, textBase, dataBase)
    requires a.Keys == f.image.shdrs.Keys && v.Keys == f.image.syms.Keys
    requires LoadElf(ms, n, f, m, textBase, dataBase, a, v).Returned?
    requires LoadElf(ms, n, f, m, textBase, dataBase, a, v).value.answer.Some?
    ensures var o := LoadElf(ms, n, f, m, textBase, dataBase, a, v);
            && |o.value.modules| == |ms| + 1
            && (forall name :: name in o.value.modules[|ms|].elfModule.symbolInfo ==>
                  FindSymbolIn(o.value.modules, name) == Some(o.value.modules[|ms|].elfModule.symbolInfo[name]))
            && (forall r :: r in SymRefs(f) && Published(f, r) ==> NameAt(f, r) in o.value.modules[|ms|].elfModule.symbolInfo)
  {
    var imports := Imports(ms, GetUndefinedSymbolNames(f));
    var em := Fresh(f, imports, textBase, dataBase);
    FreshFits(f, imports, |m|, textBase, dataBase);
    var p := Pipeline(f, em, Zeroed(f, m, textBase, dataBase), a, v);
    assert p == Assembled(f, imports, m, textBase, dataBase, a, v);
    PipelineTable(f, em, Zeroed(f, m, textBase, dataBase), a, v);
    FreshResolved(ms, f, textBase, dataBase);
    var x := Slot(n, p.value.elfModule);
    var t := x.elfModule.symbolInfo;
    forall name | name in t ensures FindSymbolIn(ms + [x], name) == Some(t[name]) {
      FindSymbolAppend(ms, x, name);
      if name !in em.symbolInfo {
        AllNamesMembers(f, name);
        var i :| 0 <= i < |GetAllSymbolNames(f)| && GetAllSymbolNames(f)[i] == name;
        assert FindSymbolIn(ms, GetAllSymbolNames(f)[i]).None?;
      }
    }
  }

  /** After a successful load the registry's lookup finds each name the
      image exports (its first defined GLOBAL entry of that name) at that
      symbol's final, rebased `st_value`, as the image holds it afterwards;
      this is what `rust_elf_sym` answers for it. The one exception is a
      symbol the walk meets again later. */
  lemma LoadPublishes(ms: seq<Slot>, n: nat, f: ElfFile, m: seq<bv8>, textBase: nat, dataBase: nat,
                      a: map<nat, bv32>, v: map<nat, bv32>, i: nat)
    requires WellFormed(f) && AllocatorOk(f, |m|, textBase, dataBase)
    requires a.Keys == f.image.shdrs.Keys && v.Keys == f.image.syms.Keys
    requires LoadElf(ms, n, f, m, textBase, dataBase, a, v).Returned?
    requires LoadElf(ms, n, f, m, textBase, dataBase, a, v).value.answer.Some?
    requires i < |SymRefs(f)| && Published(f, SymRefs(f)[i])
    requires forall j :: 0 <= j < i && Published(f, SymRefs(f)[j]) ==> NameAt(f, SymRefs(f)[j]) != NameAt(f, SymRefs(f)[i])
    requires forall j :: i < j < |SymRefs(f)| ==> SymRefs(f)[j].key != SymRefs(f)[i].key
    ensures var o := LoadElf(ms, n, f, m, textBase, dataBase, a, v).value;
            FindSymbolIn(o.modules, NameAt(f, SymRefs(f)[i])) == Some(o.values[SymRefs(f)[i].key])
  {
    var imports := Imports(ms, GetUndefinedSymbolNames(f));
    var em := Fresh(f, imports, textBase, dataBase);
    FreshFits(f, imports, |m|, textBase, dataBase);
    var z := Zeroed(f, m, textBase, dataBase);
    assert Pipeline(f, em, z, a, v) == Assembled(f, imports, m, textBase, dataBase, a, v);
    var name := NameAt(f, SymRefs(f)[i]);
    FreshResolved(ms, f, textBase, dataBase);
    AllNamesMembers(f, name);
    assert SymRefs(f)[i] in SymRefs(f);
    var k :| 0 <= k < |GetAllSymbolNames(f)| && GetAllSymbolNames(f)[k] == name;
    assert FindSymbolIn(ms, GetAllSymbolNames(f)[k]).None?;
    assert name !in em.symbolInfo;
    PipelinePublishes(f, em, z, a, v, i);
    LoadThenFind(ms, n, f, m, textBase, dataBase, a, v);
  }

  class ElfModuleRoot {
    var modules: seq<Slot>
    /** The handle the next loaded module gets. */
    var nextHandle: nat

    ghost predicate Valid()
      reads this
    {
      RootValid(modules, nextHandle)
    }

    /** The empty registry of `ELF_MODULE_ROOT`. */
    constructor ()
      ensures modules == [] && nextHandle == 0 && Valid()
    {
      modules, nextHandle := [], 0;
    }

    /** `load_elf_file`. The allocator's answers for the two groups are
        `textBase` and `dataBase`. It gives up with `None`, changing
        nothing, when an undefined name is unresolved or a defined name is
        taken; otherwise it runs the module pipeline and appends the module
        under a new handle, which it returns, unless the pipeline panics. */
    method LoadElfFile(f: ElfFile, mem: array<bv8>, textBase: nat, dataBase: nat) returns (r: Outcome<Option<Handle>>)
      requires Valid() && WellFormed(f) && f.image.Valid() && AllocatorOk(f, mem.Length, textBase, dataBase)
      modifies this, mem, f.image`shAddr, f.image`stValue
      ensures Valid() && f.image.Valid()
      ensures var o := LoadElf(old(modules), old(nextHandle), f, old(mem[..]), textBase, dataBase,
                               old(f.image.shAddr), old(f.image.stValue));
              if o.Halted? then r == Halted(o.fault)
              else
                && r == Returned(o.value.answer) && modules == o.value.modules && nextHandle == o.value.nextHandle
                && mem[..] == o.value.mem && f.image.shAddr == o.value.addrs && f.image.stValue == o.value.values
    {
      var imports := Imports(modules, GetUndefinedSymbolNames(f));
      var refused := CheckImage(modules, f);
      if refused {
        return Returned(None);
      }
      ghost var p := Assembled(f, imports, mem[..], textBase, dataBase, f.image.shAddr, f.image.stValue);
      var built := Instantiate(f, imports, mem, textBase, dataBase);
      if built.Halted? {
        return Halted(built.fault);
      }
      AssembledShape(f, imports, old(mem[..]), textBase, dataBase, old(f.image.shAddr), old(f.image.stValue));
      AppendKeeps(modules, nextHandle, built.value);
      ghost var o := LoadElf(modules, nextHandle, f, old(mem[..]), textBase, dataBase, old(f.image.shAddr), old(f.image.stValue));
      assert o.value.modules == modules + [Slot(nextHandle, built.value)];
      var h := nextHandle;
      modules := modules + [Slot(h, built.value)];
      nextHandle := nextHandle + 1;
      r := Returned(Some(h));
    }

    /** `unload_elf_module`: finds the last module with handle `h`; when its
        `dependents` list is empty, drops `h` from the `dependents` of each
        provider still registered and removes the module from the list. */
    method UnloadElfModule(h: Handle)
      requires Valid()
      modifies this
      ensures Valid()
      ensures modules == Unloaded(old(modules), h) && nextHandle == old(nextHandle)
    {
      var found := LastIndexOf(modules, h);
      if found.None? || modules[found.value].elfModule.dependents != [] {
        return;
      }
      var idx := found.value;
      var deps := modules[idx].elfModule.dependencies;
      ghost var ms := modules;
      ghost var n := nextHandle;
      var k := 0;
      while k < |deps|
        invariant 0 <= k <= |deps|
        invariant modules == Retained(ms, h, deps[..k]) && nextHandle == n
      {
        assert deps[..k + 1][..k] == deps[..k];
        RetainedShape(ms, h, deps[..k]);
        var w := deps[k];
        if w.Weak? {
          var j := IndexOf(modules, w.target);
          if j.Some? {
            modules := modules[j.value := modules[j.value].(elfModule := modules[j.value].elfModule.(
                         dependents := Without(modules[j.value].elfModule.dependents, h)))];
          }
        }
        k := k + 1;
      }
      assert deps[..k] == deps;
      RetainedShape(ms, h, deps);
      RetainedKeeps(ms, h, deps, nextHandle);
      RemovedKeeps(modules, idx, nextHandle);
      modules := RemovedAt(modules, idx);
    }
  }

  // ---------------------------------------------------------------------
  // unload_elf_module

  /** The position of the last module with handle `h` (`rfind`). */
  function LastIndexOf(ms: seq<Slot>, h: Handle): (r: Option<nat>)
    ensures r.Some? ==> r.value < |ms| && ms[r.value].handle == h
                        && forall j :: r.value < j < |ms| ==> ms[j].handle != h
    ensures r.None? ==> !Registered(ms, h)
    decreases |ms|
  {
    if ms == [] then None
    else if ms[|ms| - 1].handle == h then Some(|ms| - 1)
    else LastIndexOf(ms[..|ms| - 1], h)
  }

  /** The position of the first module with handle `h`: where `Weak::upgrade`
      finds its target. */
  function IndexOf(ms: seq<Slot>, h: Handle): (r: Option<nat>)
    ensures r.Some? ==> r.value < |ms| && ms[r.value].handle == h
                        && forall j :: 0 <= j < r.value ==> ms[j].handle != h
    ensures r.None? ==> !Registered(ms, h)
    decreases |ms|
  {
    if ms == [] then None
    else if ms[0].handle == h then Some(0)
    else
      var rest := IndexOf(ms[1..], h);
      if rest.Some? then Some(rest.value + 1) else None
  }

  /** `retain(|m| m != h)` on a list of dependents. */
  function Without(s: seq<Handle>, h: Handle): (r: seq<Handle>)
    ensures forall x :: x in r <==> x in s && x != h
    ensures |r| <= |s|
    decreases |s|
  {
    if s == [] then []
    else if s[0] == h then Without(s[1..], h)
    else [s[0]] + Without(s[1..], h)
  }

  /** The list after the `retain` for one link of the unloaded module. */
  function RetainOne(ms: seq<Slot>, h: Handle, w: WeakRef): (r: seq<Slot>)
    ensures |r| == |ms|
  {
    if w.Dangling? then ms
    else
      var j := IndexOf(ms, w.target);
      if j.None? then ms
      else ms[j.value := ms[j.value].(elfModule := ms[j.value].elfModule.(dependents := Without(ms[j.value].elfModule.dependents, h)))]
  }

  /** The list after the `retain`s for the links `deps`, in order. */
  function Retained(ms: seq<Slot>, h: Handle, deps: seq<WeakRef>): (r: seq<Slot>)
    decreases |deps|
  {
    if deps == [] then ms
    else RetainOne(Retained(ms, h, deps[..|deps| - 1]), h, deps[|deps| - 1])
  }

  /** The list without its entry at `i` (`LinkedList::remove`). */
  function RemovedAt(ms: seq<Slot>, i: nat): (r: seq<Slot>)
    requires i < |ms|
    ensures |r| == |ms| - 1
    ensures forall k :: 0 <= k < i ==> r[k] == ms[k]
    ensures forall k :: i <= k < |r| ==> r[k] == ms[k + 1]
  {
    ms[..i] + ms[i + 1..]
  }

  /** The list after `unload_elf_module(h)`. */
  function Unloaded(ms: seq<Slot>, h: Handle): seq<Slot>
  {
    var found := LastIndexOf(ms, h);
    if found.None? || ms[found.value].elfModule.dependents != [] then ms
    else
      var kept := Retained(ms, h, ms[found.value].elfModule.dependencies);
      RetainedShape(ms, h, ms[found.value].elfModule.dependencies);
      RemovedAt(kept, found.value)
  }

  /** The `retain`s keep every handle in place and every module's parts
      other than `dependents`; they only ever shrink `dependents`. */
  lemma {:induction false} RetainedShape(ms: seq<Slot>, h: Handle, deps: seq<WeakRef>)
    ensures |Retained(ms, h, deps)| == |ms|
    ensures forall i :: 0 <= i < |ms| ==> Retained(ms, h, deps)[i].handle == ms[i].handle
    ensures forall i :: 0 <= i < |ms| ==> Retained(ms, h, deps)[i].elfModule.dependencies == ms[i].elfModule.dependencies
    ensures forall i :: 0 <= i < |ms| ==> Retained(ms, h, deps)[i].elfModule.symbolInfo == ms[i].elfModule.symbolInfo
    ensures forall i :: 0 <= i < |ms| ==> Retained(ms, h, deps)[i].elfModule.textInfo == ms[i].elfModule.textInfo
    ensures forall i :: 0 <= i < |ms| ==> Retained(ms, h, deps)[i].elfModule.dataInfo == ms[i].elfModule.dataInfo
    ensures forall i, x :: 0 <= i < |ms| && x in Retained(ms, h, deps)[i].elfModule.dependents ==> x in ms[i].elfModule.dependents
    ensures forall i :: 0 <= i < |ms| ==> |Retained(ms, h, deps)[i].elfModule.dependents| <= |ms[i].elfModule.dependents|
    decreases |deps|
  {
    if deps != [] {
      RetainedShape(ms, h, deps[..|deps| - 1]);
    }
  }

  /** With no module holding a dependent, the `retain`s change nothing at all. */
  lemma {:induction false} RetainedNoDependents(ms: seq<Slot>, h: Handle, deps: seq<WeakRef>)
    requires NoDependents(ms)
    ensures Retained(ms, h, deps) == ms
    decreases |deps|
  {
    if deps != [] {
      RetainedNoDependents(ms, h, deps[..|deps| - 1]);
      var w := deps[|deps| - 1];
      if w.Weak? {
        var j := IndexOf(ms, w.target);
        if j.Some? {
          assert ms[j.value].elfModule.dependents == [];
          assert ms[j.value].elfModule.(dependents := Without([], h)) == ms[j.value].elfModule;
        }
      }
    }
  }

  /** The `retain`s keep the registry invariants. */
  lemma RetainedKeeps(ms: seq<Slot>, h: Handle, deps: seq<WeakRef>, n: nat)
    requires DistinctHandles(ms) && HandlesBelow(ms, n) && NoDependents(ms)
    ensures DistinctHandles(Retained(ms, h, deps)) && HandlesBelow(Retained(ms, h, deps), n)
    ensures NoDependents(Retained(ms, h, deps))
  {
    RetainedShape(ms, h, deps);
  }

  /** Removing an entry keeps the registry invariants and drops exactly
      that entry's handle. */
  lemma RemovedKeeps(ms: seq<Slot>, i: nat, n: nat)
    requires i < |ms| && DistinctHandles(ms) && HandlesBelow(ms, n) && NoDependents(ms)
    ensures DistinctHandles(RemovedAt(ms, i)) && HandlesBelow(RemovedAt(ms, i), n)
    ensures NoDependents(RemovedAt(ms, i))
    ensures !Registered(RemovedAt(ms, i), ms[i].handle)
    ensures forall g :: g != ms[i].handle ==> (Registered(RemovedAt(ms, i), g) <==> Registered(ms, g))
  {
    var r := RemovedAt(ms, i);
    forall a, b | 0 <= a < b < |r| ensures r[a].handle != r[b].handle {
      var a', b' := if a < i then a else a + 1, if b < i then b else b + 1;
      assert r[a] == ms[a'] && r[b] == ms[b'];
    }
    forall g | g != ms[i].handle && Registered(ms, g) ensures Registered(r, g) {
      var k :| 0 <= k < |ms| && ms[k].handle == g;
      if k < i { assert r[k] == ms[k]; } else { assert r[k - 1] == ms[k]; }
    }
    forall k | 0 <= k < |r| ensures r[k].handle != ms[i].handle {
      if k < i { assert r[k] == ms[k]; } else { assert r[k] == ms[k + 1]; }
    }
  }

  /** Since no module ever has dependents, unloading a registered module
      always succeeds: exactly its slot goes and every other slot stays as
      it was, in order. */
  lemma UnloadRemoves(ms: seq<Slot>, h: Handle, n: nat)
    requires DistinctHandles(ms) && HandlesBelow(ms, n) && NoDependents(ms) && Registered(ms, h)
    ensures Unloaded(ms, h) == RemovedAt(ms, LastIndexOf(ms, h).value)
    ensures |Unloaded(ms, h)| == |ms| - 1
    ensures !Registered(Unloaded(ms, h), h)
    ensures forall g :: g != h ==> (Registered(Unloaded(ms, h), g) <==> Registered(ms, g))
  {
    var i := LastIndexOf(ms, h).value;
    var deps := ms[i].elfModule.dependencies;
    RetainedShape(ms, h, deps);
    RetainedKeeps(ms, h, deps, n);
    var kept := Retained(ms, h, deps);
    RetainedNoDependents(ms, h, deps);
    RemovedKeeps(kept, i, n);
    forall g ensures Registered(kept, g) <==> Registered(ms, g) {
      if Registered(ms, g) {
        var k :| 0 <= k < |ms| && ms[k].handle == g;
        assert kept[k].handle == g;
      }
    }
  }

  /** Unloading a handle that is not registered changes nothing. */
  lemma UnloadUnknown(ms: seq<Slot>, h: Handle)
    requires !Registered(ms, h)
    ensures Unloaded(ms, h) == ms
  {
  }
}
