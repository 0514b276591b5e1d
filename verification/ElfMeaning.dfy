/** What RelocateModule leaves in an image, entry by entry, and when it is what the processor
    supplements of the System V ABI define (Intel386, chapter 4 "Relocation"; AMD64, section
    4.4): S, the value of the symbol, is the point where the code departs from them. */
module ElfMeaning {
  import opened Bytes
  import opened Elf
  import opened ElfLaws
  import opened ElfRelocate

  // ---- Entry by entry ----

  lemma {:induction false} SectionPlanHas(w: Arch, m: seq<byte>, kernel: Kernel, i: nat, r: nat, k: nat)
    requires r <= k < RelocCount(w, SectionOf(w, m, i))
    ensures PatchOf(w, m, kernel, i, k) in SectionPlan(w, m, kernel, i, r)
    decreases k - r
  {
    hide PatchOf, SectionOf, RelocCount;
    if r < k {
      SectionPlanHas(w, m, kernel, i, r + 1, k);
    }
  }

  lemma {:induction false} PlanHas(w: Arch, m: seq<byte>, kernel: Kernel, from: nat, i: nat, r: nat)
    requires from <= i < ShNum(w, m) && Relevant(w, m, i) && r < RelocCount(w, SectionOf(w, m, i))
    ensures PatchOf(w, m, kernel, i, r) in Plan(w, m, kernel, from)
    decreases i - from
  {
    hide PatchOf, SectionOf, RelocCount, Relevant, SectionPlan, ShNum;
    if from < i {
      PlanHas(w, m, kernel, from + 1, i, r);
    } else {
      SectionPlanHas(w, m, kernel, i, 0, r);
    }
  }

  lemma {:induction false} SectionPlanFits(w: Arch, m: seq<byte>, kernel: Kernel, i: nat, r: nat)
    requires Relocatable(w, m, kernel) && i < ShNum(w, m) && Relevant(w, m, i)
    ensures forall p :: p in SectionPlan(w, m, kernel, i, r) ==> Fits(w, |m|, p)
    decreases RelocCount(w, SectionOf(w, m, i)) - r
  {
    hide PatchOf, SectionOf, RelocCount, Relevant, ShNum, Fits, SymbolInside, Guarded, RelocOf;
    if r < RelocCount(w, SectionOf(w, m, i)) {
      assert RelocInside(w, m, kernel, i, r);
      SectionPlanFits(w, m, kernel, i, r + 1);
    }
  }

  lemma {:induction false} PlanFits(w: Arch, m: seq<byte>, kernel: Kernel, i: nat)
    requires Relocatable(w, m, kernel)
    ensures forall p :: p in Plan(w, m, kernel, i) ==> Fits(w, |m|, p)
    decreases ShNum(w, m) - i
  {
    hide Relocatable, SectionOf, RelocCount, Relevant, ShNum, Fits, SectionPlan;
    if i < ShNum(w, m) {
      PlanFits(w, m, kernel, i + 1);
      if Relevant(w, m, i) {
        SectionPlanFits(w, m, kernel, i, 0);
      }
    }
  }

  /** When RelocateModule returns 0 on an image with disjoint sites, the site of each entry of each
      section that applies to a loaded one holds what the entry stores, computed from the image
      as it was. */
  lemma {:induction false} RelocatedEntries(w: Arch, base: nat, m: seq<byte>, kernel: Kernel, i: nat, r: nat)
    requires Relocatable(w, m, kernel) && Apart(w, Plan(w, m, kernel, 0))
    requires Run(w, base, m, Plan(w, m, kernel, 0)).0 == 0
    requires i < ShNum(w, m) && Relevant(w, m, i) && r < RelocCount(w, SectionOf(w, m, i))
    ensures var p := PatchOf(w, m, kernel, i, r);
      Peek(Run(w, base, m, Plan(w, m, kernel, 0)).1, p.site, Width(w, p)) == Value(w, base, m, p)
  {
    hide Relocatable, PatchOf, SectionOf, RelocCount, Relevant, ShNum, Fits, Plan, Run, Value, Apart, Peek;
    var ps := Plan(w, m, kernel, 0);
    PlanFits(w, m, kernel, 0);
    PlanHas(w, m, kernel, 0, i, r);
    var k :| 0 <= k < |ps| && ps[k] == PatchOf(w, m, kernel, i, r);
    RunIsSimultaneous(w, base, m, ps, k);
  }

  // ---- The value of a symbol ----

  const SHN_LORESERVE: int := 0xFF00

  datatype Meaning = Defined(s: nat) | NoMeaning

  /** The address of a section (sh_addr): its place when it is loaded, else 0. */
  function SectionAddress(base: nat, s: Section): nat {
    if Alloc(s) then base + s.offset else 0
  }

  /** Symbol 0 is reserved: undefined, with an empty name. */
  predicate NullSymbol(w: Arch, m: seq<byte>) {
    var st := SymtabOf(w, m);
    SymbolOf(w, m, st, 0) == Symbol(0, 0, SHN_UNDEF) && ByteAt(m, st.names) == 0
  }

  /** S by the standard, for the image at address `base`. Common and other reserved sections,
      unknown names and malformed tables have none. */
  function StandardS(w: Arch, base: nat, m: seq<byte>, kernel: Kernel, sym: nat): Meaning {
    var st := SymtabOf(w, m);
    if ShNum(w, m) >= SHN_LORESERVE then NoMeaning
    else if sym == 0 then (if st.count == 0 || NullSymbol(w, m) then Defined(0) else NoMeaning)
    else if sym >= st.count then NoMeaning
    else
      var s := SymbolOf(w, m, st, sym);
      if s.shndx == SHN_UNDEF then
        var a := FindKernelSymbol(kernel, Name(m, st.names + s.name, NAME_LIMIT));
        if ByteAt(m, st.names + s.name) == 0 || a == 0 then NoMeaning else Defined(a)
      else if s.shndx == SHN_ABS then Defined(s.value)
      else if s.shndx < ShNum(w, m) then
        Defined((SectionAddress(base, SectionOf(w, m, s.shndx)) + s.value) % w.Modulus())
      else NoMeaning
  }

  /** The entry is of a REL section and its symbol is absolute and not 0. */
  predicate AbsoluteInRel(w: Arch, m: seq<byte>, rela: bool, sym: nat) {
    var s := SymbolOf(w, m, SymtabOf(w, m), sym);
    !rela && sym != 0 && s.shndx == SHN_ABS && s.value != 0
  }

  lemma {:induction false} PeekBound(m: seq<byte>, at: nat, n: nat)
    ensures Peek(m, at, n) < Pow256(n)
    decreases n
  {
    if n > 0 {
      PeekBound(m, at + 1, n - 1);
    }
  }

  lemma SymbolFits(w: Arch, m: seq<byte>, st: Symtab, k: nat)
    ensures SymbolOf(w, m, st, k).value < w.Modulus()
  {
    hide Peek;
    Powers();
    match w {
      case IA32 => PeekBound(m, SymbolAt(w, st, k) + 4, 4);
      case AMD64 => PeekBound(m, SymbolAt(w, st, k) + 8, 8);
    }
  }

  /** For every image and entry whose symbol has a value by the standard, the code uses that value
      exactly unless the entry is of a REL section and the symbol is absolute and not 0. */
  lemma {:induction false} SymbolValueIff(w: Arch, base: nat, m: seq<byte>, kernel: Kernel, rela: bool, sym: nat)
    requires SymbolInside(w, m, rela, sym) && StandardS(w, base, m, kernel, sym).Defined?
    ensures Address(w, base, Resolve(w, m, kernel, rela, sym)) == StandardS(w, base, m, kernel, sym).s
      <==> !AbsoluteInRel(w, m, rela, sym)
  {
    hide SymtabOf, SymbolOf, SectionOf, ShNum, Name, FindKernelSymbol, ByteAt, Peek;
    var st := SymtabOf(w, m);
    SymbolFits(w, m, st, sym);
  }

  /** So each site whose symbol has a value by the standard holds what that value gives, unless the
      entry is of a REL section and the symbol is absolute and not 0. */
  lemma {:induction false} RelocatedByStandard(w: Arch, base: nat, m: seq<byte>, kernel: Kernel, i: nat, r: nat)
    requires Relocatable(w, m, kernel) && Apart(w, Plan(w, m, kernel, 0))
    requires Run(w, base, m, Plan(w, m, kernel, 0)).0 == 0
    requires i < ShNum(w, m) && Relevant(w, m, i) && r < RelocCount(w, SectionOf(w, m, i))
    requires var s := SectionOf(w, m, i);
             var sym := RelocOf(w, m, s, r).sym;
             && PatchOf(w, m, kernel, i, r).action != BasePlus
             && StandardS(w, base, m, kernel, sym).Defined? && !AbsoluteInRel(w, m, s.kind == SHT_RELA, sym)
    ensures var p, sym := PatchOf(w, m, kernel, i, r), RelocOf(w, m, SectionOf(w, m, i), r).sym;
      Peek(Run(w, base, m, Plan(w, m, kernel, 0)).1, p.site, Width(w, p)) ==
      Formula(w, p.action, StandardS(w, base, m, kernel, sym).s, AddendOf(w, m, p), base, p.site)
  {
    hide SectionOf, RelocCount, Relevant, ShNum, Fits, Plan, Run, Apart, Peek, RelocOf, StandardS, Resolve,
         AbsoluteInRel, SymbolInside, Formula, Address, Width, AddendOf, Guarded, ActionOf;
    RelocatedEntries(w, base, m, kernel, i, r);
    assert RelocInside(w, m, kernel, i, r);
    SymbolValueIff(w, base, m, kernel, SectionOf(w, m, i).kind == SHT_RELA, RelocOf(w, m, SectionOf(w, m, i), r).sym);
  }
}
