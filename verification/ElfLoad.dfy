/** LoadModule's gate and FindSymbol (src/ia32/module.c, src/amd64/module.c). */
module ElfLoad {
  import opened Bytes
  import opened Elf
  import opened ElfRelocate

  const SHN_COMMON: nat := 0xfff2
  const ET_REL: nat := 1
  const INIT: seq<byte> := [0x49, 0x6E, 0x69, 0x74]

  /** The address FindSymbol gives for a symbol; 0 for an undefined one. */
  function SymbolAddress(w: Arch, base: nat, m: seq<byte>, s: Symbol): nat {
    if s.shndx == SHN_ABS then s.value % w.Modulus()
    else if s.shndx == SHN_COMMON then (base + s.value) % w.Modulus()
    else if s.shndx < ShNum(w, m) && s.shndx != SHN_UNDEF then
      (base + SectionOf(w, m, s.shndx).offset + s.value) % w.Modulus()
    else if s.shndx == SHN_UNDEF then 0
    else (base + s.value) % w.Modulus()
  }

  /** Absolute symbols (0xFFF1) have their value, common ones (0xFFF2) and others without a section of
      the module the value as an offset in the module, undefined ones (0) none. */
  lemma SymbolAddressIs(w: Arch, base: nat, m: seq<byte>, s: Symbol)
    requires ShNum(w, m) <= 0xFFF1
    ensures var M := if w == IA32 then 0x1_0000_0000 else 0x1_0000_0000_0000_0000;
      var address := SymbolAddress(w, base, m, s);
      && (s.shndx == 0 ==> address == 0)
      && (s.shndx == 0xFFF1 ==> address == s.value % M)
      && (0 < s.shndx < ShNum(w, m) ==> address == (base + SectionOf(w, m, s.shndx).offset + s.value) % M)
      && (s.shndx >= ShNum(w, m) && s.shndx != 0 && s.shndx != 0xFFF1 ==> address == (base + s.value) % M)
  {
    hide SectionOf, ShNum;
  }

  predicate Named(w: Arch, m: seq<byte>, st: Symtab, k: nat, name: seq<byte>) {
    Name(m, st.names + SymbolOf(w, m, st, k).name, NAME_LIMIT) == name
  }

  /** The address of the first symbol with the name; 0 when there is none. */
  ghost predicate IsAddressOf(w: Arch, m: seq<byte>, base: nat, name: seq<byte>, address: nat) {
    var st := SymtabOf(w, m);
    (exists k :: 0 <= k < st.count && Named(w, m, st, k, name)
       && (forall j :: 0 <= j < k ==> !Named(w, m, st, j, name))
       && address == SymbolAddress(w, base, m, SymbolOf(w, m, st, k)))
    || ((forall j :: 0 <= j < st.count ==> !Named(w, m, st, j, name)) && address == 0)
  }

  /** Looks a name up among the module's own symbols: the first one that carries it counts. */
  method FindSymbol(w: Arch, mem: array<byte>, base: nat, name: seq<byte>) returns (address: nat)
    ensures IsAddressOf(w, mem[..], base, name, address)
  {
    hide SymbolOf, Name, SymtabOf, SectionOf;
    var m := mem[..];
    var st := SymtabOf(w, m);
    var i := 0;
    while i < st.count
      invariant 0 <= i <= st.count && forall j :: 0 <= j < i ==> !Named(w, m, st, j, name)
    {
      if Named(w, m, st, i, name) {
        return SymbolAddress(w, base, m, SymbolOf(w, m, st, i));
      }
      i := i + 1;
    }
    address := 0;
  }

  /** FindSymbol and the relocations agree on symbols of loaded sections. */
  lemma FindSymbolAgrees(w: Arch, base: nat, m: seq<byte>, kernel: Kernel, rela: bool, k: nat)
    requires 0 < k < SymtabOf(w, m).count && ShNum(w, m) <= SHN_ABS
    requires Resolve(w, m, kernel, rela, k).InModule?
    ensures SymbolAddress(w, base, m, SymbolOf(w, m, SymtabOf(w, m), k))
        == Address(w, base, Resolve(w, m, kernel, rela, k))
  {
    hide SymbolOf, Name, SymtabOf, SectionOf, ShNum;
    var s := SymbolOf(w, m, SymtabOf(w, m), k);
    assert base + (SectionOf(w, m, s.shndx).offset + s.value) == base + SectionOf(w, m, s.shndx).offset + s.value;
  }

  datatype LoadResult = NotElf | NotRelocatable | RelocationFailed | Loaded(init: nat)

  predicate HasMagic(m: seq<byte>): (v: bool)
    ensures v <==> |m| >= 4 && m[0] == 0x7F && m[1] == 0x45 && m[2] == 0x4C && m[3] == 0x46
  {
    ByteAt(m, 0) == 0x7F && ByteAt(m, 1) == 0x45 && ByteAt(m, 2) == 0x4C && ByteAt(m, 3) == 0x46
  }

  /** Only relocatable ELF images are touched; a module is loaded exactly when all its symbols
      resolve. */
  method LoadModule(w: Arch, mem: array<byte>, base: nat, kernel: Kernel) returns (r: LoadResult)
    requires HasMagic(mem[..]) && Peek(mem[..], 16, 2) == 1 ==> Relocatable(w, mem[..], kernel)
    modifies mem
    ensures r == NotElf <==> !HasMagic(old(mem[..]))
    ensures r == NotRelocatable <==> HasMagic(old(mem[..])) && Peek(old(mem[..]), 16, 2) != 1
    ensures r == NotElf || r == NotRelocatable ==> mem[..] == old(mem[..])
    ensures r == RelocationFailed || r.Loaded? ==>
      var (code, m) := Run(w, base, old(mem[..]), Plan(w, old(mem[..]), kernel, 0));
      mem[..] == m && (r.Loaded? <==> code == 0)
    ensures r.Loaded? ==> IsAddressOf(w, mem[..], base, [0x49, 0x6E, 0x69, 0x74], r.init)
  {
    hide Relocatable, Run, Plan, Peek, SymtabOf, SymbolOf, SectionOf, Named, IsAddressOf;
    var m := mem[..];
    if !HasMagic(m) {
      return NotElf;
    }
    if Peek(m, 16, 2) != ET_REL {
      return NotRelocatable;
    }
    var code := RelocateModule(w, mem, base, kernel);
    if code != 0 {
      return RelocationFailed;
    }
    var init := FindSymbol(w, mem, base, INIT);
    r := Loaded(init);
  }
}
