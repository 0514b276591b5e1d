/** What RelocateModule stores, by relocation number: the tables of the Intel386 supplement of the
    System V ABI (chapter 4, "Relocation Types") and of the AMD64 one (section 4.4). */
module ElfFormulas {
  import opened Bytes
  import opened Elf
  import opened ElfLaws
  import opened ElfMeaning
  import opened ElfRelocate

  /** The place that entry r of section i patches. */
  function SiteOf(w: Arch, m: seq<byte>, i: nat, r: nat): nat {
    var s := SectionOf(w, m, i);
    (SectionOf(w, m, s.info).offset + RelocOf(w, m, s, r).offset)
      % (if w == IA32 then 0x1_0000_0000 else 0x1_0000_0000_0000_0000)
  }

  /** The symbol value that the code uses for it. `ElfMeaning.SymbolValueIff` says when that is the
      one of the ABI. */
  function SymbolValue(w: Arch, base: nat, m: seq<byte>, kernel: Kernel, i: nat, r: nat): nat {
    var s := SectionOf(w, m, i);
    Address(w, base, Resolve(w, m, kernel, s.kind == 4, RelocOf(w, m, s, r).sym))
  }

  /** The addend: in RELA sections the entry's, in REL sections the word at the place. */
  function AddendAt(w: Arch, m: seq<byte>, i: nat, r: nat): nat {
    var s := SectionOf(w, m, i);
    if s.kind == 4 then RelocOf(w, m, s, r).addend
    else Peek(m, SiteOf(w, m, i, r), if w == IA32 then 4 else 8)
  }

  /** How many bytes entry r of section i stores. */
  function StoresIA32(m: seq<byte>, i: nat, r: nat): nat {
    var s := SectionOf(IA32, m, i);
    var e := RelocOf(IA32, m, s, r);
    if e.kind in {1, 2, 4, 6, 7} || (s.kind == 4 && (e.kind in {3, 5} || (e.kind == 8 && e.sym == 0))) then 4 else 0
  }

  function StoresAMD64(m: seq<byte>, i: nat, r: nat): nat {
    var s := SectionOf(AMD64, m, i);
    var e := RelocOf(AMD64, m, s, r);
    if e.kind in {2, 4} then 4 else if e.kind in {1, 6, 7} || (s.kind == 4 && e.kind == 8) then 8 else 0
  }

  /** An entry of a section that relocates a loaded one. */
  predicate Applies(w: Arch, m: seq<byte>, i: nat, r: nat) {
    i < ShNum(w, m) && Relevant(w, m, i) && r < RelocCount(w, SectionOf(w, m, i))
  }

  lemma WidthIs(m: seq<byte>, kernel: Kernel, i: nat, r: nat)
    ensures Width(IA32, PatchOf(IA32, m, kernel, i, r)) == StoresIA32(m, i, r)
    ensures Width(AMD64, PatchOf(AMD64, m, kernel, i, r)) == StoresAMD64(m, i, r)
    ensures forall w :: PatchOf(w, m, kernel, i, r).site == SiteOf(w, m, i, r)
  {
    hide SectionOf, RelocOf, Resolve;
  }

  // ---- What is stored ----

  /** ia32: number 1 stores S + A, 2 and 4 store S + A - P, 6 and 7 store S; in RELA sections 3 and
      5 store S as well, and 8 for symbol 0 stores B + A. */
  lemma {:induction false} RelocatedIA32(base: nat, m: seq<byte>, kernel: Kernel, i: nat, r: nat)
    requires Relocatable(IA32, m, kernel) && Apart(IA32, Plan(IA32, m, kernel, 0))
    requires Run(IA32, base, m, Plan(IA32, m, kernel, 0)).0 == 0 && Applies(IA32, m, i, r)
    ensures var e, rela := RelocOf(IA32, m, SectionOf(IA32, m, i), r), SectionOf(IA32, m, i).kind == 4;
      var at, s, a := SiteOf(IA32, m, i, r), SymbolValue(IA32, base, m, kernel, i, r), AddendAt(IA32, m, i, r);
      var stored := Peek(Run(IA32, base, m, Plan(IA32, m, kernel, 0)).1, at, 4);
      && (e.kind == 1 ==> stored == (s + a) % 0x1_0000_0000)
      && (e.kind == 2 || e.kind == 4 ==> stored == (s + a - (base + at)) % 0x1_0000_0000)
      && (e.kind == 6 || e.kind == 7 ==> stored == s % 0x1_0000_0000)
      && (rela && (e.kind == 3 || e.kind == 5) ==> stored == s % 0x1_0000_0000)
      && (rela && e.kind == 8 && e.sym == 0 ==> stored == (base + a) % 0x1_0000_0000)
  {
    hide SectionOf, RelocOf, Resolve, Relocatable, Run, Plan, Apart, Peek, Address;
    RelocatedEntries(IA32, base, m, kernel, i, r);
  }

  /** amd64: number 1 stores S + A in 8 bytes, 2 and 4 store the low 32 bits of S + A - P in 4, 6
      and 7 store S; in RELA sections 8 stores B + A. */
  lemma {:induction false} RelocatedAMD64(base: nat, m: seq<byte>, kernel: Kernel, i: nat, r: nat)
    requires Relocatable(AMD64, m, kernel) && Apart(AMD64, Plan(AMD64, m, kernel, 0))
    requires Run(AMD64, base, m, Plan(AMD64, m, kernel, 0)).0 == 0 && Applies(AMD64, m, i, r)
    ensures var e, rela := RelocOf(AMD64, m, SectionOf(AMD64, m, i), r), SectionOf(AMD64, m, i).kind == 4;
      var at, s, a := SiteOf(AMD64, m, i, r), SymbolValue(AMD64, base, m, kernel, i, r), AddendAt(AMD64, m, i, r);
      var out, M := Run(AMD64, base, m, Plan(AMD64, m, kernel, 0)).1, 0x1_0000_0000_0000_0000;
      && (e.kind == 1 ==> Peek(out, at, 8) == (s + a) % M)
      && (e.kind == 2 || e.kind == 4 ==> Peek(out, at, 4) == (s + a - (base + at)) % M % 0x1_0000_0000)
      && (e.kind == 6 || e.kind == 7 ==> Peek(out, at, 8) == s % M)
      && (rela && e.kind == 8 ==> Peek(out, at, 8) == (base + a) % M)
  {
    hide SectionOf, RelocOf, Resolve, Relocatable, Run, Plan, Apart, Peek, Address;
    RelocatedEntries(AMD64, base, m, kernel, i, r);
  }

  // ---- What is not ----

  lemma {:induction false} SectionPlanFrom(w: Arch, m: seq<byte>, kernel: Kernel, i: nat, r: nat, p: Patch)
    requires p in SectionPlan(w, m, kernel, i, r)
    ensures exists k :: r <= k < RelocCount(w, SectionOf(w, m, i)) && p == PatchOf(w, m, kernel, i, k)
    decreases RelocCount(w, SectionOf(w, m, i)) - r
  {
    hide PatchOf, SectionOf, RelocCount;
    if p != PatchOf(w, m, kernel, i, r) {
      SectionPlanFrom(w, m, kernel, i, r + 1, p);
    }
  }

  lemma {:induction false} PlanFrom(w: Arch, m: seq<byte>, kernel: Kernel, from: nat, p: Patch)
    requires p in Plan(w, m, kernel, from)
    ensures exists i: nat, r: nat :: Applies(w, m, i, r) && p == PatchOf(w, m, kernel, i, r)
    decreases ShNum(w, m) - from
  {
    hide PatchOf, SectionOf, RelocCount, Relevant, SectionPlan, ShNum;
    if p in Plan(w, m, kernel, from + 1) {
      PlanFrom(w, m, kernel, from + 1, p);
    } else {
      SectionPlanFrom(w, m, kernel, from, 0, p);
      var k :| 0 <= k < RelocCount(w, SectionOf(w, m, from)) && p == PatchOf(w, m, kernel, from, k);
      assert Applies(w, m, from, k);
    }
  }

  /** Every byte that no entry stores keeps its value, whatever the result. So every other number
      leaves its place as it is. */
  lemma {:induction false} UntouchedIA32(base: nat, m: seq<byte>, kernel: Kernel, a: nat)
    requires a < |m|
    requires forall i: nat, r: nat :: Applies(IA32, m, i, r) ==>
               !(SiteOf(IA32, m, i, r) <= a < SiteOf(IA32, m, i, r) + StoresIA32(m, i, r))
    ensures Run(IA32, base, m, Plan(IA32, m, kernel, 0)).1[a] == m[a]
  {
    hide PatchOf, Applies, SiteOf, StoresIA32, Plan, Run, Width;
    var ps := Plan(IA32, m, kernel, 0);
    forall k | 0 <= k < |ps|
      ensures !Touches(IA32, ps[k], a)
    {
      PlanFrom(IA32, m, kernel, 0, ps[k]);
      var i: nat, r: nat :| Applies(IA32, m, i, r) && ps[k] == PatchOf(IA32, m, kernel, i, r);
      WidthIs(m, kernel, i, r);
    }
    RunFrame(IA32, base, m, ps, a);
  }

  lemma {:induction false} UntouchedAMD64(base: nat, m: seq<byte>, kernel: Kernel, a: nat)
    requires a < |m|
    requires forall i: nat, r: nat :: Applies(AMD64, m, i, r) ==>
               !(SiteOf(AMD64, m, i, r) <= a < SiteOf(AMD64, m, i, r) + StoresAMD64(m, i, r))
    ensures Run(AMD64, base, m, Plan(AMD64, m, kernel, 0)).1[a] == m[a]
  {
    hide PatchOf, Applies, SiteOf, StoresAMD64, Plan, Run, Width;
    var ps := Plan(AMD64, m, kernel, 0);
    forall k | 0 <= k < |ps|
      ensures !Touches(AMD64, ps[k], a)
    {
      PlanFrom(AMD64, m, kernel, 0, ps[k]);
      var i: nat, r: nat :| Applies(AMD64, m, i, r) && ps[k] == PatchOf(AMD64, m, kernel, i, r);
      WidthIs(m, kernel, i, r);
    }
    RunFrame(AMD64, base, m, ps, a);
  }

  // ---- When it fails ----

  /** The entry's symbol is undefined, has a name, and no kernel symbol has that name. An entry of a
      RELA section with number 8 and symbol 0 needs none. */
  ghost predicate NameMissing(w: Arch, m: seq<byte>, kernel: Kernel, i: nat, r: nat) {
    var s, st := SectionOf(w, m, i), SymtabOf(w, m);
    var e := RelocOf(w, m, s, r);
    var symbol := SymbolOf(w, m, st, e.sym);
    var name := Name(m, st.names + symbol.name, 128);
    && !(s.kind == 4 && e.kind == 8 && e.sym == 0)
    && (s.kind == 4 || w == AMD64 ==> 0 < e.sym < st.count)
    && symbol.shndx == 0 && ByteAt(m, st.names + symbol.name) != 0
    && (name !in kernel || kernel[name] == 0)
  }

  /** Relocation returns -1 exactly if some entry that applies needs a name that is missing, and 0
      otherwise. */
  lemma {:induction false} RelocationFailsIff(w: Arch, base: nat, m: seq<byte>, kernel: Kernel)
    ensures Run(w, base, m, Plan(w, m, kernel, 0)).0 ==
            if exists i: nat, r: nat :: Applies(w, m, i, r) && NameMissing(w, m, kernel, i, r) then -1 else 0
  {
    hide Applies, NameMissing, PatchOf, Plan, Run;
    var ps := Plan(w, m, kernel, 0);
    RunFailsIff(w, base, m, ps);
    if k :| 0 <= k < |ps| && ps[k].target == Unresolved {
      PlanFrom(w, m, kernel, 0, ps[k]);
      var i: nat, r: nat :| Applies(w, m, i, r) && ps[k] == PatchOf(w, m, kernel, i, r);
      MissingIs(w, m, kernel, i, r);
    }
    if i: nat, r: nat :| Applies(w, m, i, r) && NameMissing(w, m, kernel, i, r) {
      MissingIs(w, m, kernel, i, r);
      AppliesParts(w, m, i, r);
      PlanHas(w, m, kernel, 0, i, r);
    }
  }

  lemma AppliesParts(w: Arch, m: seq<byte>, i: nat, r: nat)
    requires Applies(w, m, i, r)
    ensures i < ShNum(w, m) && Relevant(w, m, i) && r < RelocCount(w, SectionOf(w, m, i))
  {
  }

  lemma MissingIs(w: Arch, m: seq<byte>, kernel: Kernel, i: nat, r: nat)
    ensures PatchOf(w, m, kernel, i, r).target == Unresolved <==> NameMissing(w, m, kernel, i, r)
  {
    hide SectionOf, RelocOf, SymbolOf, SymtabOf, ByteAt, Name, ShNum;
  }
}
