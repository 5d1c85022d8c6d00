/** The C interface of the loader (src/lib.rs): `rust_elf_load`,
    `rust_elf_sym` and `rust_elf_unload` on the one global registry
    `ELF_MODULE_ROOT`, which is passed in as `root`. A C pointer to a module
    is its handle, `None` the null pointer; a C string is an address in
    memory. */
module Lib {
  import opened Common
  import opened CStrings
  import opened Elf
  import opened ElfModules
  import opened Registry

  /** `cstr2ruststr` of src/lib.rs: the bytes from address `p` up to the
      first zero byte. The source reads until it meets a zero, so one must
      exist; the bytes are not checked to be UTF-8. */
  method Cstr2RustStr(mem: array<bv8>, p: nat) returns (r: Name)
    requires p < mem.Length && 0 in mem[p..]
    ensures r == CStr(mem[p..])
  {
    ghost var z := FirstZero(mem[p..]);
    assert mem[p..][z] == mem[p + z];
    var slen := 0;
    while mem[p + slen] != 0
      invariant slen <= z
      invariant forall i :: 0 <= i < slen ==> mem[p..][i] != 0
      decreases z - slen
    {
      assert mem[p..][slen] == mem[p + slen];
      slen := slen + 1;
    }
    assert mem[p..][slen] == mem[p + slen];
    assert mem[p..p + slen] == mem[p..][..slen];
    r := mem[p..p + slen];
  }

  /** The module a valid handle designates. */
  function ModuleOf(ms: seq<Slot>, h: Handle): ElfModule
    requires Registered(ms, h)
  {
    ms[IndexOf(ms, h).value].elfModule
  }

  /** The address `rust_elf_sym` answers for `name`, 0 standing for null:
      the handle's own table first, then the first module of the registry
      that has the name. */
  function SymbolAddress(ms: seq<Slot>, handle: Option<Handle>, name: Name): bv32
    requires handle.Some? ==> Registered(ms, handle.value)
  {
    var own := if handle.None? then None else FindSymbol(ModuleOf(ms, handle.value), name);
    if own.Some? then own.value
    else
      var global := FindSymbolIn(ms, name);
      if global.Some? then global.value else 0
  }

  /** A handle whose table has the name answers from that table; otherwise
      the first module in list order that has the name answers, and with no
      such module the answer is null. */
  lemma SymbolAddressCases(ms: seq<Slot>, handle: Option<Handle>, name: Name)
    requires handle.Some? ==> Registered(ms, handle.value)
    ensures handle.Some? && name in ModuleOf(ms, handle.value).symbolInfo ==>
              SymbolAddress(ms, handle, name) == ModuleOf(ms, handle.value).symbolInfo[name]
    ensures (handle.None? || name !in ModuleOf(ms, handle.value).symbolInfo) ==>
              && (forall i: nat :: IsFirstProvider(ms, name, i) ==> SymbolAddress(ms, handle, name) == ms[i].elfModule.symbolInfo[name])
              && ((forall i :: 0 <= i < |ms| ==> name !in ms[i].elfModule.symbolInfo) ==> SymbolAddress(ms, handle, name) == 0)
  {
    FindSymbolFirst(ms, name);
  }

  /** `rust_elf_sym`: reads the name at address `p`, then looks it up. */
  method RustElfSym(root: ElfModuleRoot, mem: array<bv8>, handle: Option<Handle>, p: nat) returns (r: bv32)
    requires handle.Some? ==> Registered(root.modules, handle.value)
    requires p < mem.Length && 0 in mem[p..]
    ensures r == SymbolAddress(root.modules, handle, CStr(mem[p..]))
  {
    var name := Cstr2RustStr(mem, p);
    r := SymbolAddress(root.modules, handle, name);
  }

  /** `rust_elf_load`: parses the buffer `img` (`null` for the null
      pointer) and loads it. A buffer that does not parse gives null and
      changes nothing. */
  method RustElfLoad(root: ElfModuleRoot, img: ElfImage?, mem: array<bv8>, textBase: nat, dataBase: nat)
    returns (r: Outcome<Option<Handle>>)
    requires root.Valid()
    requires Parse(img).Ok? ==> img.Valid() && WellFormed(Parse(img).file)
                                && AllocatorOk(Parse(img).file, mem.Length, textBase, dataBase)
    modifies root, mem, img
    ensures root.Valid()
    ensures Parse(img).Err? ==>
              r == Returned(None) && root.modules == old(root.modules) && root.nextHandle == old(root.nextHandle)
              && mem[..] == old(mem[..])
              && (img != null ==> img.shAddr == old(img.shAddr) && img.stValue == old(img.stValue))
    ensures Parse(img).Ok? ==>
              var o := LoadElf(old(root.modules), old(root.nextHandle), Parse(img).file, old(mem[..]), textBase, dataBase,
                               old(img.shAddr), old(img.stValue));
              if o.Halted? then r == Halted(o.fault)
              else
                && r == Returned(o.value.answer) && root.modules == o.value.modules && root.nextHandle == o.value.nextHandle
                && mem[..] == o.value.mem && img.shAddr == o.value.addrs && img.stValue == o.value.values
  {
    var parsed := Parse(img);
    if parsed.Err? {
      return Returned(None);
    }
    r := root.LoadElfFile(parsed.file, mem, textBase, dataBase);
  }

  /** `rust_elf_unload`: only delegates; the null pointer matches no module. */
  method RustElfUnload(root: ElfModuleRoot, handle: Option<Handle>)
    requires root.Valid()
    modifies root
    ensures root.Valid() && root.nextHandle == old(root.nextHandle)
    ensures root.modules == if handle.None? then old(root.modules) else Unloaded(old(root.modules), handle.value)
  {
    if handle.Some? {
      root.UnloadElfModule(handle.value);
    }
  }
}
