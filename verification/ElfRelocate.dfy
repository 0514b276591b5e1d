/** RelocateModule (src/ia32/module.c, src/amd64/module.c): the nested loops that read the tables
    from the image they patch. */
module ElfRelocate {
  import opened Bytes
  import opened Elf

  // ---- What the loops read ----

  /** Section i is read as a table: relocations, the symbols, or their names. */
  predicate IsTable(w: Arch, m: seq<byte>, i: nat) {
    IsReloc(SectionOf(w, m, i)) || i == FindSymtab(w, m, 0)
    || (FindSymtab(w, m, 0) < ShNum(w, m) && i == SectionOf(w, m, FindSymtab(w, m, 0)).link)
  }

  predicate InSection(s: Section, a: nat) {
    s.offset <= a < s.offset + s.size
  }

  /** Byte a belongs to the header, the section headers or a table. */
  ghost predicate Guarded(w: Arch, m: seq<byte>, a: nat) {
    || a < w.HeaderSize()
    || SectionAt(w, m, 0) <= a < SectionAt(w, m, ShNum(w, m))
    || exists i: nat :: i < ShNum(w, m) && IsTable(w, m, i) && InSection(SectionOf(w, m, i), a)
  }

  ghost predicate Agree(w: Arch, m: seq<byte>, m': seq<byte>) {
    |m'| == |m| && forall a :: 0 <= a < |m| && Guarded(w, m, a) ==> m'[a] == m[a]
  }

  /** The symbol of a relocation is read inside the symbol table, and its name inside the names. */
  predicate SymbolInside(w: Arch, m: seq<byte>, rela: bool, sym: nat) {
    var st := SymtabOf(w, m);
    ((rela || w == AMD64) && !(0 < sym < st.count)) ||
    (sym < st.count &&
     var at := st.names + SymbolOf(w, m, st, sym).name;
     var names := SectionOf(w, m, SectionOf(w, m, FindSymtab(w, m, 0)).link);
     at + |Name(m, at, NAME_LIMIT)| < names.offset + names.size)
  }

  /** What RelocateModule needs of an image: indices in range, and patch sites inside the image
      and away from every table. */
  ghost predicate Relocatable(w: Arch, m: seq<byte>, kernel: Kernel) {
    && (forall i :: 0 <= i < ShNum(w, m) && IsReloc(SectionOf(w, m, i)) ==> SectionOf(w, m, i).info < ShNum(w, m))
    && (FindSymtab(w, m, 0) < ShNum(w, m) ==> SectionOf(w, m, FindSymtab(w, m, 0)).link < ShNum(w, m))
    && (forall i, r :: 0 <= i < ShNum(w, m) && Relevant(w, m, i) && 0 <= r < RelocCount(w, SectionOf(w, m, i)) ==>
          RelocInside(w, m, kernel, i, r))
  }

  ghost predicate RelocInside(w: Arch, m: seq<byte>, kernel: Kernel, i: nat, r: nat) {
    var s, p := SectionOf(w, m, i), PatchOf(w, m, kernel, i, r);
    var e := RelocOf(w, m, s, r);
    && Fits(w, |m|, p)
    && (forall a :: p.site <= a < p.site + Width(w, p) ==> !Guarded(w, m, a))
    && (!(p.action == BasePlus && e.sym == 0) ==>
          SymbolInside(w, m, s.kind == SHT_RELA, e.sym))
  }

  // ---- Reading is the same from memory that agrees on the tables ----

  lemma GuardedPeek(w: Arch, m: seq<byte>, m': seq<byte>, at: nat, n: nat)
    requires Agree(w, m, m') && forall a :: at <= a < at + n ==> Guarded(w, m, a)
    ensures Peek(m', at, n) == Peek(m, at, n)
  {
    PeekSame(m, m', at, n);
  }

  lemma HeaderSame(w: Arch, m: seq<byte>, m': seq<byte>)
    requires Agree(w, m, m')
    ensures ShOff(w, m') == ShOff(w, m) && ShNum(w, m') == ShNum(w, m)
  {
    match w {
      case IA32 =>
        GuardedPeek(w, m, m', 32, 4);
        GuardedPeek(w, m, m', 48, 2);
      case AMD64 =>
        GuardedPeek(w, m, m', 40, 8);
        GuardedPeek(w, m, m', 60, 2);
    }
  }

  lemma SectionGuarded(w: Arch, m: seq<byte>, i: nat)
    requires i < ShNum(w, m)
    ensures forall a :: SectionAt(w, m, i) <= a < SectionAt(w, m, i) + w.SectionSize() ==> Guarded(w, m, a)
  {
    assert SectionAt(w, m, i) + w.SectionSize() <= SectionAt(w, m, ShNum(w, m)) by {
      match w {
        case IA32 =>
        case AMD64 =>
      }
    }
  }

  lemma SectionSame(w: Arch, m: seq<byte>, m': seq<byte>, i: nat)
    requires Agree(w, m, m') && i < ShNum(w, m)
    ensures SectionOf(w, m', i) == SectionOf(w, m, i)
  {
    hide Guarded, Peek, Agree, ShOff, ShNum;
    HeaderSame(w, m, m');
    SectionGuarded(w, m, i);
    var at := SectionAt(w, m, i);
    match w {
      case IA32 =>
        GuardedPeek(w, m, m', at + 4, 4);
        GuardedPeek(w, m, m', at + 8, 4);
        GuardedPeek(w, m, m', at + 16, 4);
        GuardedPeek(w, m, m', at + 20, 4);
        GuardedPeek(w, m, m', at + 24, 4);
        GuardedPeek(w, m, m', at + 28, 4);
      case AMD64 =>
        GuardedPeek(w, m, m', at + 4, 4);
        GuardedPeek(w, m, m', at + 8, 8);
        GuardedPeek(w, m, m', at + 24, 8);
        GuardedPeek(w, m, m', at + 32, 8);
        GuardedPeek(w, m, m', at + 40, 4);
        GuardedPeek(w, m, m', at + 44, 4);
    }
  }

  lemma {:induction false} FindSymtabIs(w: Arch, m: seq<byte>, i: nat)
    ensures FindSymtab(w, m, i) <= ShNum(w, m)
    ensures FindSymtab(w, m, i) < ShNum(w, m) ==>
      i <= FindSymtab(w, m, i) && SectionOf(w, m, FindSymtab(w, m, i)).kind == 2
    ensures forall j :: i <= j < FindSymtab(w, m, i) ==> SectionOf(w, m, j).kind != 2
    decreases ShNum(w, m) - i
  {
    hide SectionOf, ShNum;
    if i < ShNum(w, m) && SectionOf(w, m, i).kind != SHT_SYMTAB {
      FindSymtabIs(w, m, i + 1);
    }
  }

  lemma {:induction false} FindSymtabSame(w: Arch, m: seq<byte>, m': seq<byte>, i: nat)
    requires Agree(w, m, m')
    ensures FindSymtab(w, m', i) == FindSymtab(w, m, i)
    decreases ShNum(w, m) - i
  {
    hide SectionOf, ShNum, Agree;
    HeaderSame(w, m, m');
    if i < ShNum(w, m) {
      SectionSame(w, m, m', i);
      if SectionOf(w, m, i).kind != SHT_SYMTAB {
        FindSymtabSame(w, m, m', i + 1);
      }
    }
  }

  lemma SymtabSame(w: Arch, m: seq<byte>, m': seq<byte>)
    requires Agree(w, m, m')
    requires FindSymtab(w, m, 0) < ShNum(w, m) ==> SectionOf(w, m, FindSymtab(w, m, 0)).link < ShNum(w, m)
    ensures SymtabOf(w, m') == SymtabOf(w, m)
  {
    hide SectionOf, ShNum, FindSymtab, Agree;
    HeaderSame(w, m, m');
    FindSymtabSame(w, m, m', 0);
    var i := FindSymtab(w, m, 0);
    if i < ShNum(w, m) {
      SectionSame(w, m, m', i);
      SectionSame(w, m, m', SectionOf(w, m, i).link);
    }
  }

  /** Addresses in a table section are guarded. */
  lemma TableGuarded(w: Arch, m: seq<byte>, i: nat, at: nat, n: nat)
    requires i < ShNum(w, m) && IsTable(w, m, i)
    requires SectionOf(w, m, i).offset <= at && at + n <= SectionOf(w, m, i).offset + SectionOf(w, m, i).size
    ensures forall a :: at <= a < at + n ==> Guarded(w, m, a)
  {
    forall a | at <= a < at + n
      ensures Guarded(w, m, a)
    {
      assert InSection(SectionOf(w, m, i), a);
    }
  }

  lemma EntryInside(k: nat, size: nat, each: nat)
    requires each > 0 && k < size / each
    ensures k * each + each <= size
  {
    assert (k + 1) * each <= size / each * each <= size;
  }

  lemma SymbolSame(w: Arch, m: seq<byte>, m': seq<byte>, k: nat)
    requires Agree(w, m, m') && k < SymtabOf(w, m).count
    ensures SymbolOf(w, m', SymtabOf(w, m), k) == SymbolOf(w, m, SymtabOf(w, m), k)
  {
    hide Guarded, Peek, Agree, ShOff, ShNum, SectionOf, FindSymtab;
    var i, st := FindSymtab(w, m, 0), SymtabOf(w, m);
    var at := SymbolAt(w, st, k);
    EntryInside(k, SectionOf(w, m, i).size, w.SymbolSize());
    TableGuarded(w, m, i, at, w.SymbolSize());
    match w {
      case IA32 =>
        GuardedPeek(w, m, m', at, 4);
        GuardedPeek(w, m, m', at + 4, 4);
        GuardedPeek(w, m, m', at + 14, 2);
      case AMD64 =>
        GuardedPeek(w, m, m', at, 4);
        GuardedPeek(w, m, m', at + 8, 8);
        GuardedPeek(w, m, m', at + 6, 2);
    }
  }

  lemma RelocSame(w: Arch, m: seq<byte>, m': seq<byte>, i: nat, r: nat)
    requires Agree(w, m, m') && i < ShNum(w, m) && IsReloc(SectionOf(w, m, i))
    requires r < RelocCount(w, SectionOf(w, m, i))
    ensures RelocOf(w, m', SectionOf(w, m, i), r) == RelocOf(w, m, SectionOf(w, m, i), r)
  {
    hide Guarded, Peek, Agree, ShOff, ShNum, SectionOf, FindSymtab;
    var s := SectionOf(w, m, i);
    var each := if s.kind == SHT_RELA then w.RelaSize() else w.RelSize();
    var at := RelocAt(w, s, r);
    EntryInside(r, s.size, each);
    TableGuarded(w, m, i, at, each);
    match w {
      case IA32 =>
        GuardedPeek(w, m, m', at, 4);
        GuardedPeek(w, m, m', at + 4, 4);
        if s.kind == SHT_RELA {
          GuardedPeek(w, m, m', at + 8, 4);
        }
      case AMD64 =>
        GuardedPeek(w, m, m', at, 8);
        GuardedPeek(w, m, m', at + 8, 8);
        if s.kind == SHT_RELA {
          GuardedPeek(w, m, m', at + 16, 8);
        }
    }
  }

  lemma {:induction false} NameSame(m: seq<byte>, m': seq<byte>, at: nat, limit: nat)
    requires |m'| == |m| && forall a :: at <= a <= at + |Name(m, at, limit)| && a < |m| ==> m'[a] == m[a]
    ensures Name(m', at, limit) == Name(m, at, limit) && ByteAt(m', at) == ByteAt(m, at)
    decreases limit
  {
    if limit > 0 && ByteAt(m, at) != 0 {
      assert Name(m, at, limit) == [ByteAt(m, at)] + Name(m, at + 1, limit - 1);
      NameSame(m, m', at + 1, limit - 1);
    }
  }

  lemma ResolveSame(w: Arch, m: seq<byte>, m': seq<byte>, kernel: Kernel, rela: bool, sym: nat)
    requires Agree(w, m, m') && SymbolInside(w, m, rela, sym)
    requires FindSymtab(w, m, 0) < ShNum(w, m) ==> SectionOf(w, m, FindSymtab(w, m, 0)).link < ShNum(w, m)
    ensures Resolve(w, m', kernel, rela, sym) == Resolve(w, m, kernel, rela, sym)
  {
    hide Guarded, Peek, ShOff, ShNum, SectionOf, FindSymtab, SymbolOf, ByteAt, Name;
    SymtabSame(w, m, m');
    HeaderSame(w, m, m');
    var st := SymtabOf(w, m);
    if !((rela || w == AMD64) && !(0 < sym < st.count)) {
      var i, s := FindSymtab(w, m, 0), SymbolOf(w, m, st, sym);
      SymbolSame(w, m, m', sym);
      if s.shndx < ShNum(w, m) {
        SectionSame(w, m, m', s.shndx);
      }
      var at, link := st.names + s.name, SectionOf(w, m, i).link;
      TableGuarded(w, m, link, at, |Name(m, at, NAME_LIMIT)| + 1);
      NameSame(m, m', at, NAME_LIMIT);
    }
  }

  /** A relocation decodes alike from every memory that agrees on the tables. */
  lemma PatchSame(w: Arch, m: seq<byte>, m': seq<byte>, kernel: Kernel, i: nat, r: nat)
    requires Relocatable(w, m, kernel) && Agree(w, m, m')
    requires i < ShNum(w, m) && Relevant(w, m, i) && r < RelocCount(w, SectionOf(w, m, i))
    ensures PatchOf(w, m', kernel, i, r) == PatchOf(w, m, kernel, i, r)
  {
    hide Guarded, Peek, ShOff, ShNum, SectionOf, FindSymtab, Agree, Resolve, SymbolInside, RelocOf, Fits;
    assert RelocInside(w, m, kernel, i, r);
    var s := SectionOf(w, m, i);
    SectionSame(w, m, m', i);
    SectionSame(w, m, m', s.info);
    RelocSame(w, m, m', i, r);
    var e := RelocOf(w, m, s, r);
    if !(ActionOf(w, s.kind == SHT_RELA, e.kind, e.sym) == BasePlus && e.sym == 0) {
      ResolveSame(w, m, m', kernel, s.kind == SHT_RELA, e.sym);
    }
  }

  // ---- The loops ----

  method StorePatch(w: Arch, base: nat, mem: array<byte>, p: Patch)
    requires Fits(w, mem.Length, p)
    modifies mem
    ensures mem[..] == ApplyPatch(w, base, old(mem[..]), p)
  {
    var bytes := Encode(Value(w, base, mem[..], p), Width(w, p));
    forall k | 0 <= k < |bytes| {
      mem[p.site + k] := bytes[k];
    }
  }

  lemma AgreeStep(w: Arch, base: nat, m: seq<byte>, m': seq<byte>, p: Patch)
    requires Agree(w, m, m') && Fits(w, |m|, p)
    requires forall a :: p.site <= a < p.site + Width(w, p) ==> !Guarded(w, m, a)
    ensures Agree(w, m, ApplyPatch(w, base, m', p))
  {
  }

  lemma RunStep(w: Arch, base: nat, m: seq<byte>, p: Patch, rest: seq<Patch>)
    ensures Run(w, base, m, [p] + rest) ==
            if p.target == Unresolved then (-1, m) else Run(w, base, ApplyPatch(w, base, m, p), rest)
  {
    assert ([p] + rest)[1..] == rest;
  }

  lemma PlanStep(w: Arch, m: seq<byte>, kernel: Kernel, i: nat)
    ensures Plan(w, m, kernel, i) ==
            if i >= ShNum(w, m) then []
            else (if Relevant(w, m, i) then SectionPlan(w, m, kernel, i, 0) else []) + Plan(w, m, kernel, i + 1)
  {
  }

  lemma SectionPlanStep(w: Arch, m: seq<byte>, kernel: Kernel, i: nat, r: nat, rest: seq<Patch>)
    ensures SectionPlan(w, m, kernel, i, r) + rest ==
            if r >= RelocCount(w, SectionOf(w, m, i)) then rest
            else [PatchOf(w, m, kernel, i, r)] + (SectionPlan(w, m, kernel, i, r + 1) + rest)
  {
  }

  /** Reads the tables from the memory it patches, and comes out as if every relocation had been
      decoded before the first patch. */
  method RelocateModule(w: Arch, mem: array<byte>, base: nat, kernel: Kernel) returns (result: int)
    requires Relocatable(w, mem[..], kernel)
    modifies mem
    ensures (result, mem[..]) == Run(w, base, old(mem[..]), Plan(w, old(mem[..]), kernel, 0))
  {
    hide Agree, Guarded, Plan, SectionPlan, Run, PatchOf, SectionOf, ShNum, ApplyPatch, RelocInside, Resolve;
    ghost var m := mem[..];
    ghost var whole := Run(w, base, m, Plan(w, m, kernel, 0));
    AgreeSelf(w, m);
    var i := 0;
    while i < ShNum(w, mem[..])
      invariant 0 <= i <= ShNum(w, m) && Agree(w, m, mem[..])
      invariant whole == Run(w, base, mem[..], Plan(w, m, kernel, i))
      decreases ShNum(w, m) - i
    {
      HeaderSame(w, m, mem[..]);
      SectionSame(w, m, mem[..], i);
      PlanStep(w, m, kernel, i);
      var s := SectionOf(w, mem[..], i);
      if IsReloc(s) {
        SectionSame(w, m, mem[..], s.info);
        if Alloc(SectionOf(w, mem[..], s.info)) {
          ghost var rest := Plan(w, m, kernel, i + 1);
          var r := 0;
          while r < RelocCount(w, s)
            invariant 0 <= r && Agree(w, m, mem[..])
            invariant whole == Run(w, base, mem[..], SectionPlan(w, m, kernel, i, r) + rest)
          {
            SectionPlanStep(w, m, kernel, i, r, rest);
            PatchSame(w, m, mem[..], kernel, i, r);
            assert RelocInside(w, m, kernel, i, r);
            var p := PatchOf(w, mem[..], kernel, i, r);
            RunStep(w, base, mem[..], p, SectionPlan(w, m, kernel, i, r + 1) + rest);
            if p.target == Unresolved {
              return -1;
            }
            InsideMeans(w, m, kernel, i, r);
            AgreeLength(w, m, mem[..]);
            AgreeStep(w, base, m, mem[..], p);
            StorePatch(w, base, mem, p);
            r := r + 1;
          }
          SectionPlanStep(w, m, kernel, i, r, rest);
        } else {
          assert [] + Plan(w, m, kernel, i + 1) == Plan(w, m, kernel, i + 1);
        }
      } else {
        assert [] + Plan(w, m, kernel, i + 1) == Plan(w, m, kernel, i + 1);
      }
      i := i + 1;
      HeaderSame(w, m, mem[..]);
    }
    HeaderSame(w, m, mem[..]);
    PlanStep(w, m, kernel, i);
    RunNothing(w, base, mem[..]);
    result := 0;
  }

  lemma AgreeSelf(w: Arch, m: seq<byte>)
    ensures Agree(w, m, m)
  {
  }

  lemma AgreeLength(w: Arch, m: seq<byte>, m': seq<byte>)
    requires Agree(w, m, m')
    ensures |m'| == |m|
  {
  }

  lemma RunNothing(w: Arch, base: nat, m: seq<byte>)
    ensures Run(w, base, m, []) == (0, m)
  {
  }

  lemma InsideMeans(w: Arch, m: seq<byte>, kernel: Kernel, i: nat, r: nat)
    requires RelocInside(w, m, kernel, i, r)
    ensures var p := PatchOf(w, m, kernel, i, r);
      Fits(w, |m|, p) && forall a :: p.site <= a < p.site + Width(w, p) ==> !Guarded(w, m, a)
  {
  }
}
