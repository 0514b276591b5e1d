/** A module that relocation gets wrong: an absolute symbol in a REL section. */
module ElfExample {
  import opened Bytes
  import opened Elf
  import opened ElfLaws
  import opened ElfLoad
  import opened ElfMeaning
  import opened ElfRelocate

  // ---- The image ----

  const DATA: Section := Section(1, 2, 304, 8, 0, 0)
  const SYMBOLS: Section := Section(SHT_SYMTAB, 0, 252, 32, 3, 0)
  const NAMES: Section := Section(3, 0, 284, 1, 0, 0)
  const RELOCATIONS: Section := Section(SHT_REL, 0, 288, 16, 2, 1)

  /** An ia32 module: header, five section headers from byte 52 on, two symbols of which the second
      is absolute with value 5, an empty name, R_386_32 entries for that symbol and for symbol 0,
      and the words 7 and 9 that they relocate. */
  function Image(): (m: seq<byte>)
    ensures |m| == 312 && forall k :: 0 <= k ==> ByteAt(m, k) == ImageByte(k)
  {
    seq(312, k requires 0 <= k => ImageByte(k))
  }

  function ImageByte(k: nat): byte {
    if k < 52 then HeaderByte(k) else if k < 252 then SectionByte(k) else ContentByte(k)
  }

  /** The magic number, ET_REL, and where the section headers are. */
  function HeaderByte(k: nat): byte {
    match k
    case 0 => 0x7F
    case 1 => 0x45
    case 2 => 0x4C
    case 3 => 0x46
    case 16 => 1
    case 32 => 52
    case 48 => 5
    case _ => 0
  }

  function SectionByte(k: nat): byte {
    match k
    case 96 => 1
    case 100 => 2
    case 108 => 0x30
    case 109 => 1
    case 112 => 8
    case 136 => 2
    case 148 => 252
    case 152 => 32
    case 156 => 3
    case 176 => 3
    case 188 => 0x1C
    case 189 => 1
    case 192 => 1
    case 216 => 9
    case 228 => 0x20
    case 229 => 1
    case 232 => 16
    case 236 => 2
    case 240 => 1
    case _ => 0
  }

  /** Symbol 1 has value 5 and section index 0xFFF1; the entries' info fields are 0x101 and 1. */
  function ContentByte(k: nat): byte {
    match k
    case 272 => 5
    case 282 => 0xF1
    case 283 => 0xFF
    case 292 => 1
    case 293 => 1
    case 296 => 4
    case 300 => 1
    case 304 => 7
    case 308 => 9
    case _ => 0
  }

  // ---- Its words ----

  lemma Word(at: nat)
    ensures var m := Image();
      && Peek(m, at, 2) == ImageByte(at) as int + 0x100 * ImageByte(at + 1) as int
      && Peek(m, at, 4) == Peek(m, at, 2) + 0x1_0000 * (ImageByte(at + 2) as int + 0x100 * ImageByte(at + 3) as int)
  {
    hide Image, ImageByte;
    var m := Image();
    assert Peek(m, at + 3, 1) == ByteAt(m, at + 3) as int && Peek(m, at + 1, 1) == ByteAt(m, at + 1) as int;
    assert Peek(m, at + 2, 2) == ByteAt(m, at + 2) as int + 0x100 * ByteAt(m, at + 3) as int;
    assert Peek(m, at + 1, 3) == ByteAt(m, at + 1) as int + 0x100 * Peek(m, at + 2, 2);
  }

  lemma HeaderIs()
    ensures HasMagic(Image()) && Peek(Image(), 16, 2) == ET_REL
    ensures ShNum(IA32, Image()) == 5 && ShOff(IA32, Image()) == 52
  {
    hide Peek, Image;
    Word(16);
    Word(32);
    Word(48);
  }

  /** The fields of section header i. */
  lemma SectionIs(i: nat)
    requires i < 5
    ensures SectionOf(IA32, Image(), i) ==
            match i case 0 => Section(0, 0, 0, 0, 0, 0) case 1 => DATA case 2 => SYMBOLS case 3 => NAMES
                    case _ => RELOCATIONS
  {
    hide Peek, Image, ShOff;
    HeaderIs();
    var at := 52 + 40 * i;
    Word(at + 4);
    Word(at + 8);
    Word(at + 16);
    Word(at + 20);
    Word(at + 24);
    Word(at + 28);
  }

  lemma TablesAre()
    ensures FindSymtab(IA32, Image(), 0) == 2 && SymtabOf(IA32, Image()) == Symtab(252, 2, 284)
    ensures SymbolOf(IA32, Image(), Symtab(252, 2, 284), 0) == Symbol(0, 0, SHN_UNDEF)
    ensures SymbolOf(IA32, Image(), Symtab(252, 2, 284), 1) == Symbol(0, 5, SHN_ABS)
    ensures RelocOf(IA32, Image(), RELOCATIONS, 0) == Reloc(0, 1, 1, 0)
    ensures RelocOf(IA32, Image(), RELOCATIONS, 1) == Reloc(4, 1, 0, 0)
  {
    hide Peek, Image, SectionOf, ShNum;
    HeaderIs();
    SectionIs(0);
    SectionIs(1);
    SectionIs(2);
    SectionIs(3);
    assert FindSymtab(IA32, Image(), 2) == 2 == FindSymtab(IA32, Image(), 1);
    EntryWords();
  }

  lemma EntryWords()
    ensures var m := Image();
      && Peek(m, 252, 4) == 0 && Peek(m, 256, 4) == 0 && Peek(m, 266, 2) == 0
      && Peek(m, 268, 4) == 0 && Peek(m, 272, 4) == 5 && Peek(m, 282, 2) == SHN_ABS
      && Peek(m, 288, 4) == 0 && Peek(m, 292, 4) == 0x101 && Peek(m, 296, 4) == 4 && Peek(m, 300, 4) == 1
      && Peek(m, 304, 4) == 7 && Peek(m, 308, 4) == 9
  {
    hide Peek, Image;
    Word(252);
    Word(256);
    Word(266);
    Word(268);
    Word(272);
    Word(282);
    Word(288);
    Word(292);
    Word(296);
    Word(300);
    Word(304);
    Word(308);
  }

  /** What the two entries ask for: symbol 0 has no address, and the absolute symbol gets none. */
  const ENTRY: Patch := Patch(304, Absolute, Fixed(0), InPlace)
  const NULL_ENTRY: Patch := Patch(308, Absolute, Fixed(0), InPlace)

  lemma EntriesAre(kernel: Kernel)
    ensures PatchOf(IA32, Image(), kernel, 4, 0) == ENTRY && PatchOf(IA32, Image(), kernel, 4, 1) == NULL_ENTRY
    ensures RelocCount(IA32, SectionOf(IA32, Image(), 4)) == 2
    ensures forall i :: 0 <= i < 5 ==> (Relevant(IA32, Image(), i) <==> i == 4)
  {
    hide Peek, Image, SectionOf, ShNum, FindSymtab, SymbolOf, SymtabOf, RelocOf;
    HeaderIs();
    TablesAre();
    forall i | 0 <= i < 5
      ensures Relevant(IA32, Image(), i) <==> i == 4
    {
      SectionIs(i);
      SectionIs(1);
    }
    SectionIs(4);
    SectionIs(1);
  }

  lemma PlanIs(kernel: Kernel)
    ensures Plan(IA32, Image(), kernel, 0) == [ENTRY, NULL_ENTRY]
  {
    hide Image, Relevant, RelocCount, PatchOf, ShNum;
    HeaderIs();
    EntriesAre(kernel);
    var m, ps := Image(), [ENTRY, NULL_ENTRY];
    assert SectionPlan(IA32, m, kernel, 4, 2) == [];
    assert SectionPlan(IA32, m, kernel, 4, 1) == [NULL_ENTRY];
    assert SectionPlan(IA32, m, kernel, 4, 0) == ps;
    assert Plan(IA32, m, kernel, 5) == [];
    assert Plan(IA32, m, kernel, 4) == ps;
    assert Plan(IA32, m, kernel, 3) == ps;
    assert Plan(IA32, m, kernel, 2) == ps;
    assert Plan(IA32, m, kernel, 1) == ps;
  }

  /** Relocating it is allowed: the tables lie in the image and the sites are no part of them. */
  lemma ImageRelocatable(kernel: Kernel)
    ensures Relocatable(IA32, Image(), kernel)
  {
    hide Peek, Image, SectionOf, ShNum, ShOff, FindSymtab, SymbolOf, SymtabOf, RelocOf, PatchOf, Relevant, RelocCount,
         RelocInside;
    HeaderIs();
    TablesAre();
    EntriesAre(kernel);
    forall i | 0 <= i < 5
      ensures IsReloc(SectionOf(IA32, Image(), i)) ==> SectionOf(IA32, Image(), i).info < 5
    {
      SectionIs(i);
    }
    SectionIs(2);
    SiteInside(kernel, 0);
    SiteInside(kernel, 1);
  }

  lemma SitesFree()
    ensures forall a :: 304 <= a < 312 ==> !Guarded(IA32, Image(), a)
  {
    hide Peek, Image, SectionOf, ShNum, ShOff, FindSymtab;
    HeaderIs();
    TablesAre();
    SectionIs(2);
    forall i: nat, a | i < 5 && IsTable(IA32, Image(), i) && 304 <= a < 312
      ensures !InSection(SectionOf(IA32, Image(), i), a)
    {
      SectionIs(i);
    }
  }

  lemma SiteInside(kernel: Kernel, r: nat)
    requires r < 2
    ensures RelocInside(IA32, Image(), kernel, 4, r)
  {
    hide Peek, Image, SectionOf, ShNum, ShOff, FindSymtab, SymbolOf, SymtabOf, RelocOf, PatchOf, Guarded;
    TablesAre();
    SitesFree();
    EntriesAre(kernel);
    SectionIs(4);
    SectionIs(2);
    SectionIs(3);
  }

  // ---- Loading it ----

  /** LoadModule takes the module at every address and with every kernel: magic number and type are
      right, the tables and sites are in order, and all symbols resolve. */
  lemma ImageLoads(base: nat, kernel: Kernel)
    ensures var m := Image();
      && HasMagic(m) && Peek(m, 16, 2) == ET_REL && Relocatable(IA32, m, kernel)
      && ShNum(IA32, m) == 5 && Relevant(IA32, m, 4) && RelocCount(IA32, SectionOf(IA32, m, 4)) == 2
      && Apart(IA32, Plan(IA32, m, kernel, 0)) && Run(IA32, base, m, Plan(IA32, m, kernel, 0)).0 == 0
  {
    hide Peek, Image, SectionOf, ShNum, FindSymtab, Relevant, RelocCount, Relocatable, Plan, Run;
    HeaderIs();
    EntriesAre(kernel);
    PlanIs(kernel);
    ImageRelocatable(kernel);
    RunFailsIff(IA32, base, Image(), [ENTRY, NULL_ENTRY]);
  }

  /** Its first word is left at A == 7, where the ABI gives S + A with S == 5. */
  lemma AbsoluteInRelFails(base: nat, kernel: Kernel)
    ensures var m := Image();
      var (code, r) := Run(IA32, base, m, Plan(IA32, m, kernel, 0));
      var e, p := RelocOf(IA32, m, SectionOf(IA32, m, 4), 0), PatchOf(IA32, m, kernel, 4, 0);
      && code == 0 && AbsoluteInRel(IA32, m, false, e.sym)
      && StandardS(IA32, base, m, kernel, e.sym) == Defined(5)
      && p.site == 304 && Peek(r, 304, 4) == 7
      && Formula(IA32, p.action, 5, AddendOf(IA32, m, p), base, 304) == 12
  {
    hide Peek, Image, SectionOf, ShNum, FindSymtab, SymbolOf, SymtabOf, RelocOf, PatchOf, Relevant, RelocCount,
         Relocatable, Plan, Run, Apart;
    HeaderIs();
    TablesAre();
    EntryWords();
    SectionIs(4);
    EntriesAre(kernel);
    ImageLoads(base, kernel);
    RelocatedEntries(IA32, base, Image(), kernel, 4, 0);
  }

  /** Its second word is what the ABI gives. */
  lemma NullSymbolInRel(base: nat, kernel: Kernel)
    ensures var m := Image();
      var r := Run(IA32, base, m, Plan(IA32, m, kernel, 0)).1;
      var e, p := RelocOf(IA32, m, SectionOf(IA32, m, 4), 1), PatchOf(IA32, m, kernel, 4, 1);
      && StandardS(IA32, base, m, kernel, e.sym) == Defined(0)
      && Peek(r, 308, 4) == Formula(IA32, p.action, 0, AddendOf(IA32, m, p), base, 308) == 9
  {
    hide Peek, Image, SectionOf, ShNum, FindSymtab, SymbolOf, SymtabOf, RelocOf, PatchOf, Relevant, RelocCount,
         Relocatable, Plan, Run, Apart;
    HeaderIs();
    TablesAre();
    EntryWords();
    SectionIs(4);
    EntriesAre(kernel);
    ImageLoads(base, kernel);
    RelocatedByStandard(IA32, base, Image(), kernel, 4, 1);
  }
}
