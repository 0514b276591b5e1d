/** ELF relocatable images as bytes: how src/ia32/module.c and src/amd64/module.c read section
    headers, symbols and relocations, and what each relocation stores. Bytes past the end of an
    image read as 0. */
module Elf {
  import opened Bytes

  datatype Arch = IA32 | AMD64
  {
    /** Size of uintptr_t. */
    function Word(): nat {
      match this case IA32 => 4 case AMD64 => 8
    }
    function Modulus(): nat {
      match this case IA32 => 0x1_0000_0000 case AMD64 => 0x1_0000_0000_0000_0000
    }
    function HeaderSize(): nat {
      match this case IA32 => 52 case AMD64 => 64
    }
    function SectionSize(): nat {
      match this case IA32 => 40 case AMD64 => 64
    }
    function SymbolSize(): nat {
      match this case IA32 => 16 case AMD64 => 24
    }
    function RelaSize(): nat {
      match this case IA32 => 12 case AMD64 => 24
    }
    function RelSize(): nat {
      match this case IA32 => 8 case AMD64 => 16
    }
  }

  const SHT_SYMTAB: nat := 2
  const SHT_RELA: nat := 4
  const SHT_REL: nat := 9
  const SHN_UNDEF: nat := 0
  const SHN_ABS: nat := 0xfff1
  const NAME_LIMIT: nat := 128

  // ---- Bytes and words ----

  function ByteAt(m: seq<byte>, a: nat): byte {
    if a < |m| then m[a] else 0
  }

  /** The n-byte little-endian number at address `at`. */
  function Peek(m: seq<byte>, at: nat, n: nat): nat
    decreases n
  {
    if n == 0 then 0 else ByteAt(m, at) as int + 0x100 * Peek(m, at + 1, n - 1)
  }

  function Pow256(n: nat): nat {
    if n == 0 then 1 else 0x100 * Pow256(n - 1)
  }

  function Encode(x: nat, n: nat): (s: seq<byte>)
    ensures |s| == n
  {
    if n == 0 then [] else [x % 0x100] + Encode(x / 0x100, n - 1)
  }

  lemma {:induction false} PeekSame(m: seq<byte>, m': seq<byte>, at: nat, n: nat)
    requires |m'| == |m| && forall a :: at <= a < at + n && a < |m| ==> m'[a] == m[a]
    ensures Peek(m', at, n) == Peek(m, at, n)
    decreases n
  {
    if n > 0 {
      PeekSame(m, m', at + 1, n - 1);
    }
  }

  /** A stored number is read back. */
  lemma {:induction false} PeekEncode(m: seq<byte>, at: nat, x: nat, n: nat)
    requires at + n <= |m| && x < Pow256(n)
    requires forall k :: 0 <= k < n ==> m[at + k] == Encode(x, n)[k]
    ensures Peek(m, at, n) == x
    decreases n
  {
    if n > 0 {
      var rest := Encode(x / 0x100, n - 1);
      assert m[at + 0] == Encode(x, n)[0];
      forall k | 0 <= k < n - 1
        ensures m[at + 1 + k] == rest[k]
      {
        assert m[at + (k + 1)] == Encode(x, n)[k + 1];
      }
      PeekEncode(m, at + 1, x / 0x100, n - 1);
    }
  }

  // ---- Section headers ----

  function ShOff(w: Arch, m: seq<byte>): nat {
    match w case IA32 => Peek(m, 32, 4) case AMD64 => Peek(m, 40, 8)
  }

  function ShNum(w: Arch, m: seq<byte>): nat {
    match w case IA32 => Peek(m, 48, 2) case AMD64 => Peek(m, 60, 2)
  }

  function SectionAt(w: Arch, m: seq<byte>, i: nat): nat {
    ShOff(w, m) + i * w.SectionSize()
  }

  datatype Section = Section(kind: nat, flags: nat, offset: nat, size: nat, link: nat, info: nat)

  function SectionOf(w: Arch, m: seq<byte>, i: nat): Section {
    var at := SectionAt(w, m, i);
    match w
    case IA32 =>
      Section(Peek(m, at + 4, 4), Peek(m, at + 8, 4), Peek(m, at + 16, 4), Peek(m, at + 20, 4),
              Peek(m, at + 24, 4), Peek(m, at + 28, 4))
    case AMD64 =>
      Section(Peek(m, at + 4, 4), Peek(m, at + 8, 8), Peek(m, at + 24, 8), Peek(m, at + 32, 8),
              Peek(m, at + 40, 4), Peek(m, at + 44, 4))
  }

  predicate Alloc(s: Section) {
    s.flags / 2 % 2 == 1
  }

  predicate IsReloc(s: Section) {
    s.kind == SHT_REL || s.kind == SHT_RELA
  }

  // ---- Symbols ----

  /** The first symbol table from section i on, or the number of sections. */
  function FindSymtab(w: Arch, m: seq<byte>, i: nat): (r: nat)
    decreases ShNum(w, m) - i
  {
    if i >= ShNum(w, m) then ShNum(w, m)
    else if SectionOf(w, m, i).kind == SHT_SYMTAB then i
    else FindSymtab(w, m, i + 1)
  }

  /** The fields that RelocateModule fills in: where symbols and their names are. */
  datatype Symtab = Symtab(symbols: nat, count: nat, names: nat)

  function SymtabOf(w: Arch, m: seq<byte>): Symtab {
    var i := FindSymtab(w, m, 0);
    if i >= ShNum(w, m) then Symtab(0, 0, 0)
    else
      var s := SectionOf(w, m, i);
      Symtab(s.offset, s.size / w.SymbolSize(), SectionOf(w, m, s.link).offset)
  }

  datatype Symbol = Symbol(name: nat, value: nat, shndx: nat)

  function SymbolAt(w: Arch, st: Symtab, k: nat): nat {
    st.symbols + k * w.SymbolSize()
  }

  function SymbolOf(w: Arch, m: seq<byte>, st: Symtab, k: nat): Symbol {
    var at := SymbolAt(w, st, k);
    match w
    case IA32 => Symbol(Peek(m, at, 4), Peek(m, at + 4, 4), Peek(m, at + 14, 2))
    case AMD64 => Symbol(Peek(m, at, 4), Peek(m, at + 8, 8), Peek(m, at + 6, 2))
  }

  /** The C string at `at`, as far as FindKernelSymbol compares it. */
  function Name(m: seq<byte>, at: nat, limit: nat): (r: seq<byte>)
    ensures |r| <= limit && forall k :: 0 <= k < |r| ==> r[k] == ByteAt(m, at + k) && r[k] != 0
    ensures |r| < limit ==> ByteAt(m, at + |r|) == 0
    decreases limit
  {
    if limit == 0 || ByteAt(m, at) == 0 then [] else [ByteAt(m, at)] + Name(m, at + 1, limit - 1)
  }

  /** Kernel symbols by name; 0 stands for "not found". */
  type Kernel = map<seq<byte>, nat>

  function FindKernelSymbol(kernel: Kernel, name: seq<byte>): nat {
    if name in kernel then kernel[name] else 0
  }

  // ---- Relocations ----

  datatype Reloc = Reloc(offset: nat, kind: nat, sym: nat, addend: nat)

  function RelocAt(w: Arch, s: Section, r: nat): nat {
    s.offset + r * (if s.kind == SHT_RELA then w.RelaSize() else w.RelSize())
  }

  function RelocCount(w: Arch, s: Section): nat {
    s.size / (if s.kind == SHT_RELA then w.RelaSize() else w.RelSize())
  }

  /** Entry r of a relocation section; the addend field is 0 where the format has none. Addends
      are taken as unsigned words, which is the same modulo the word size. */
  function RelocOf(w: Arch, m: seq<byte>, s: Section, r: nat): Reloc {
    var at := RelocAt(w, s, r);
    match w
    case IA32 =>
      var info := Peek(m, at + 4, 4);
      Reloc(Peek(m, at, 4), info % 0x100, info / 0x100, if s.kind == SHT_RELA then Peek(m, at + 8, 4) else 0)
    case AMD64 =>
      var info := Peek(m, at + 8, 8);
      Reloc(Peek(m, at, 8), info % 0x1_0000_0000, info / 0x1_0000_0000,
            if s.kind == SHT_RELA then Peek(m, at + 16, 8) else 0)
  }

  /** What a relocation type stores: S + A, S + A - P, S, B + A, or nothing. */
  datatype Action = Absolute | PcRelative | Plain | BasePlus | Skip

  function ActionOf(w: Arch, rela: bool, kind: nat, sym: nat): Action {
    match w
    case IA32 =>
      if rela && kind == 8 && sym == 0 then BasePlus
      else if kind == 1 then Absolute
      else if kind == 2 || kind == 4 then PcRelative
      else if kind == 6 || kind == 7 || (rela && (kind == 3 || kind == 5)) then Plain
      else Skip
    case AMD64 =>
      if rela && kind == 8 then BasePlus
      else if kind == 1 then Absolute
      else if kind == 2 || kind == 4 then PcRelative
      else if kind == 6 || kind == 7 then Plain
      else Skip
  }

  /** The symbol a relocation refers to: an address in the module, an address that does not move
      with it, or a name the kernel does not know. */
  datatype Target = InModule(at: nat) | Fixed(at: nat) | Unresolved

  function Address(w: Arch, base: nat, t: Target): nat {
    match t
    case InModule(at) => (base + at) % w.Modulus()
    case Fixed(at) => at
    case Unresolved => 0
  }

  /** The symbol's part of RelocateModule. REL entries on ia32 have no check of the symbol index,
      and REL entries have no case for absolute symbols: those count as address 0. */
  function Resolve(w: Arch, m: seq<byte>, kernel: Kernel, rela: bool, sym: nat): Target {
    var st := SymtabOf(w, m);
    if (rela || w == AMD64) && !(0 < sym < st.count) then Fixed(0)
    else
      var s := SymbolOf(w, m, st, sym);
      if s.shndx != SHN_UNDEF && s.shndx < ShNum(w, m) then
        var section := SectionOf(w, m, s.shndx);
        if Alloc(section) then InModule(section.offset + s.value) else Fixed(s.value)
      else if s.shndx == SHN_UNDEF && ByteAt(m, st.names + s.name) != 0 then
        var a := FindKernelSymbol(kernel, Name(m, st.names + s.name, NAME_LIMIT));
        if a == 0 then Unresolved else Fixed(a)
      else if s.shndx == SHN_ABS && rela then Fixed(s.value)
      else Fixed(0)
  }

  // ---- Patches ----

  datatype Addend = Explicit(a: nat) | InPlace

  /** One relocation, decoded: `site` is its place in the image. */
  datatype Patch = Patch(site: nat, action: Action, target: Target, addend: Addend)

  function PatchOf(w: Arch, m: seq<byte>, kernel: Kernel, i: nat, r: nat): Patch {
    var s := SectionOf(w, m, i);
    var rela := s.kind == SHT_RELA;
    var e := RelocOf(w, m, s, r);
    var action := ActionOf(w, rela, e.kind, e.sym);
    Patch((SectionOf(w, m, s.info).offset + e.offset) % w.Modulus(),
          action,
          if action == BasePlus && e.sym == 0 then Fixed(0) else Resolve(w, m, kernel, rela, e.sym),
          if rela then Explicit(e.addend) else InPlace)
  }

  /** The relocations of section i from entry r on. */
  function SectionPlan(w: Arch, m: seq<byte>, kernel: Kernel, i: nat, r: nat): seq<Patch>
    decreases RelocCount(w, SectionOf(w, m, i)) - r
  {
    if r >= RelocCount(w, SectionOf(w, m, i)) then []
    else [PatchOf(w, m, kernel, i, r)] + SectionPlan(w, m, kernel, i, r + 1)
  }

  /** Section i holds relocations for a section that is loaded. */
  predicate Relevant(w: Arch, m: seq<byte>, i: nat) {
    IsReloc(SectionOf(w, m, i)) && Alloc(SectionOf(w, m, SectionOf(w, m, i).info))
  }

  /** All relocations from section i on, in the order in which RelocateModule takes them. */
  function Plan(w: Arch, m: seq<byte>, kernel: Kernel, i: nat): seq<Patch>
    decreases ShNum(w, m) - i
  {
    if i >= ShNum(w, m) then []
    else (if Relevant(w, m, i) then SectionPlan(w, m, kernel, i, 0) else []) + Plan(w, m, kernel, i + 1)
  }

  /** How many bytes a patch stores. */
  function Width(w: Arch, p: Patch): nat {
    if p.action == Skip then 0 else if w == AMD64 && p.action == PcRelative then 4 else w.Word()
  }

  /** The addend: given by the entry, or the word at the site. */
  function AddendOf(w: Arch, m: seq<byte>, p: Patch): nat {
    match p.addend case Explicit(a) => a case InPlace => Peek(m, p.site, w.Word())
  }

  /** The number that an action stores for symbol value `s` and addend `a`. */
  function Formula(w: Arch, action: Action, s: nat, a: nat, base: nat, site: nat): nat {
    match action
    case Absolute => (s + a) % w.Modulus()
    case PcRelative =>
      var delta := (s + a - (base + site)) % w.Modulus();
      if w == AMD64 then delta % 0x1_0000_0000 else delta
    case Plain => s % w.Modulus()
    case BasePlus => (base + a) % w.Modulus()
    case Skip => 0
  }

  /** The number a patch stores, computed from memory `m` (an in-place addend is read there). */
  function Value(w: Arch, base: nat, m: seq<byte>, p: Patch): nat {
    Formula(w, p.action, Address(w, base, p.target), AddendOf(w, m, p), base, p.site)
  }

  /** How many bytes from the site on a patch reads or stores: an in-place addend is a word. */
  function Footprint(w: Arch, p: Patch): (n: nat)
    ensures Width(w, p) <= n <= w.Word()
  {
    if p.addend == InPlace then w.Word() else Width(w, p)
  }

  /** What a patch reads and stores lies in the image. */
  predicate Fits(w: Arch, len: nat, p: Patch) {
    p.site + Footprint(w, p) <= len
  }

  function ApplyPatch(w: Arch, base: nat, m: seq<byte>, p: Patch): (r: seq<byte>)
    ensures |r| == |m|
  {
    if Fits(w, |m|, p) then Splice(m, p.site, Encode(Value(w, base, m, p), Width(w, p))) else m
  }

  /** Taking the patches one after the other; -1 at the first unresolved symbol. */
  function Run(w: Arch, base: nat, m: seq<byte>, ps: seq<Patch>): (r: (int, seq<byte>))
    ensures |r.1| == |m|
    decreases |ps|
  {
    if ps == [] then (0, m)
    else if ps[0].target == Unresolved then (-1, m)
    else Run(w, base, ApplyPatch(w, base, m, ps[0]), ps[1..])
  }
}
