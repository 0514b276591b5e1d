/** An amd64 module with one entry of every kind, and the words that relocation leaves in it. */
module ElfExample64 {
  import opened Bytes
  import opened Elf
  import opened ElfFields
  import opened ElfFormulas
  import opened ElfLaws
  import opened ElfLoad
  import opened ElfRelocate

  // ---- The image ----

  const NULL_SECTION: Section := Section(0, 0, 0, 0, 0, 0)
  const TEXT: Section := Section(1, 6, 800, 48, 0, 0)
  const COMMENT: Section := Section(1, 0x30, 0, 0, 0, 0)
  const SYMBOLS: Section := Section(2, 0, 512, 120, 4, 0)
  const NAMES: Section := Section(3, 0, 632, 3, 0, 0)
  const RELA: Section := Section(4, 0, 640, 144, 3, 1)
  const REL: Section := Section(9, 0, 784, 16, 3, 1)

  /** Header, seven section headers from byte 64 on, five symbols from 512 on, their names, six RELA
      entries from 640 on and one REL entry for the 48 bytes from 800 on. Symbol 1 lies in the
      loaded section 1, symbol 2 is the undefined "f", symbol 3 is absolute, and symbol 4 lies in
      section 2, which is not loaded. */
  function Image(): (m: seq<byte>)
    ensures |m| == 848 && forall k :: 0 <= k ==> ByteAt(m, k) == ImageByte(k)
  {
    seq(848, k requires 0 <= k => ImageByte(k))
  }

  function ImageByte(k: nat): byte {
    if k < 64 then HeaderByte(k) else if k < 512 then SectionByte(k)
    else if k < 640 then SymbolByte(k) else EntryByte(k)
  }

  function HeaderByte(k: nat): byte {
    match k
    case 0 => 0x7F
    case 1 => 0x45
    case 2 => 0x4C
    case 3 => 0x46
    case 16 => 1
    case 40 => 64
    case 60 => 7
    case _ => 0
  }

  function SectionByte(k: nat): byte {
    match k
    case 132 => 1
    case 136 => 6
    case 152 => 0x20
    case 153 => 3
    case 160 => 48
    case 196 => 1
    case 200 => 0x30
    case 260 => 2
    case 281 => 2
    case 288 => 120
    case 296 => 4
    case 324 => 3
    case 344 => 0x78
    case 345 => 2
    case 352 => 3
    case 388 => 4
    case 408 => 0x80
    case 409 => 2
    case 416 => 144
    case 424 => 3
    case 428 => 1
    case 452 => 9
    case 472 => 0x10
    case 473 => 3
    case 480 => 16
    case 488 => 3
    case 492 => 1
    case _ => 0
  }

  function SymbolByte(k: nat): byte {
    match k
    case 542 => 1
    case 544 => 16
    case 560 => 1
    case 590 => 0xF1
    case 591 => 0xFF
    case 592 => 0x34
    case 593 => 0x12
    case 614 => 2
    case 616 => 9
    case 633 => 0x66
    case _ => 0
  }

  /** R_X86_64_64, PC32, PLT32, GLOB_DAT, RELATIVE and GOTPCREL; the REL entry is a PC32 one. The
      second addend is -4. */
  function EntryByte(k: nat): byte {
    match k
    case 648 => 1
    case 652 => 1
    case 656 => 5
    case 664 => 8
    case 672 => 2
    case 676 => 2
    case 680 => 0xFC
    case 688 => 12
    case 696 => 4
    case 700 => 3
    case 712 => 16
    case 720 => 6
    case 724 => 4
    case 736 => 24
    case 744 => 8
    case 752 => 7
    case 760 => 32
    case 768 => 9
    case 772 => 1
    case 784 => 40
    case 792 => 2
    case 796 => 1
    case 832 => 0xAB
    case 840 => 3
    case _ => if 681 <= k < 688 then 0xFF else 0
  }

  // ---- Its fields ----

  lemma HeaderIs()
    ensures HasMagic(Image()) && Peek(Image(), 16, 2) == ET_REL && ShNum(AMD64, Image()) == 7
    ensures ShOff(AMD64, Image()) == 64
  {
    hide Peek, Image;
    PeekIs(Image(), 16);
    PeekIs(Image(), 40);
    PeekIs(Image(), 60);
  }

  function Header(i: nat): Section {
    match i
    case 0 => NULL_SECTION
    case 1 => TEXT
    case 2 => COMMENT
    case 3 => SYMBOLS
    case 4 => NAMES
    case 5 => RELA
    case _ => REL
  }

  /** The words of the image, from its bytes. */
  lemma Words(at: nat)
    ensures Half(Image(), at) == ImageByte(at) as int + 0x100 * ImageByte(at + 1) as int
    ensures Word4(Image(), at) ==
            ImageByte(at) as int + 0x100 * ImageByte(at + 1) as int
            + 0x1_0000 * (ImageByte(at + 2) as int + 0x100 * ImageByte(at + 3) as int)
    ensures Word8(Image(), at) == Word4(Image(), at) + 0x1_0000_0000 * Word4(Image(), at + 4)
  {
    hide Image, ImageByte;
  }

  lemma SectionIs(i: nat)
    requires i < 7
    ensures SectionOf(AMD64, Image(), i) == Header(i)
  {
    hide Image, SectionOf;
    match i {
      case 0 => NullIs();
      case 1 => TextIs();
      case 2 => CommentIs();
      case 3 => SymbolsIs();
      case 4 => NamesIs();
      case 5 => RelaIs();
      case 6 => RelIs();
    }
  }

  lemma NullIs()
    ensures SectionOf(AMD64, Image(), 0) == NULL_SECTION
  {
    hide Image, SectionOf, Half, Word4, Word8, Peek;
    SectionFields(Image(), 0);
    Words(40);
    Words(44);
    Words(68);
    Words(72);
    Words(76);
    Words(88);
    Words(92);
    Words(96);
    Words(100);
    Words(104);
    Words(108);
  }

  lemma TextIs()
    ensures SectionOf(AMD64, Image(), 1) == TEXT
  {
    hide Image, SectionOf, Half, Word4, Word8, Peek;
    SectionFields(Image(), 1);
    Words(40);
    Words(44);
    Words(132);
    Words(136);
    Words(140);
    Words(152);
    Words(156);
    Words(160);
    Words(164);
    Words(168);
    Words(172);
  }

  lemma CommentIs()
    ensures SectionOf(AMD64, Image(), 2) == COMMENT
  {
    hide Image, SectionOf, Half, Word4, Word8, Peek;
    SectionFields(Image(), 2);
    Words(40);
    Words(44);
    Words(196);
    Words(200);
    Words(204);
    Words(216);
    Words(220);
    Words(224);
    Words(228);
    Words(232);
    Words(236);
  }

  lemma SymbolsIs()
    ensures SectionOf(AMD64, Image(), 3) == SYMBOLS
  {
    hide Image, SectionOf, Half, Word4, Word8, Peek;
    SectionFields(Image(), 3);
    Words(40);
    Words(44);
    Words(260);
    Words(264);
    Words(268);
    Words(280);
    Words(284);
    Words(288);
    Words(292);
    Words(296);
    Words(300);
  }

  lemma NamesIs()
    ensures SectionOf(AMD64, Image(), 4) == NAMES
  {
    hide Image, SectionOf, Half, Word4, Word8, Peek;
    SectionFields(Image(), 4);
    Words(40);
    Words(44);
    Words(324);
    Words(328);
    Words(332);
    Words(344);
    Words(348);
    Words(352);
    Words(356);
    Words(360);
    Words(364);
  }

  lemma RelaIs()
    ensures SectionOf(AMD64, Image(), 5) == RELA
  {
    hide Image, SectionOf, Half, Word4, Word8, Peek;
    SectionFields(Image(), 5);
    Words(40);
    Words(44);
    Words(388);
    Words(392);
    Words(396);
    Words(408);
    Words(412);
    Words(416);
    Words(420);
    Words(424);
    Words(428);
  }

  lemma RelIs()
    ensures SectionOf(AMD64, Image(), 6) == REL
  {
    hide Image, SectionOf, Half, Word4, Word8, Peek;
    SectionFields(Image(), 6);
    Words(40);
    Words(44);
    Words(452);
    Words(456);
    Words(460);
    Words(472);
    Words(476);
    Words(480);
    Words(484);
    Words(488);
    Words(492);
  }

  lemma SymbolsAreThese()
    ensures FindSymtab(AMD64, Image(), 0) == 3 && SymtabOf(AMD64, Image()) == Symtab(512, 5, 632)
  {
    hide Image, SectionOf, ShNum;
    HeaderIs();
    SectionIs(0);
    SectionIs(1);
    SectionIs(2);
    SectionIs(3);
    SectionIs(4);
    assert FindSymtab(AMD64, Image(), 3) == 3 == FindSymtab(AMD64, Image(), 2);
    assert FindSymtab(AMD64, Image(), 1) == 3;
  }

  function SymbolAtIndex(k: nat): Symbol {
    match k
    case 1 => Symbol(0, 16, 1)
    case 2 => Symbol(1, 0, 0)
    case 3 => Symbol(0, 0x1234, 0xFFF1)
    case 4 => Symbol(0, 9, 2)
    case _ => Symbol(0, 0, 0)
  }

  lemma SymbolIs(k: nat)
    requires k < 5
    ensures SymbolOf(AMD64, Image(), Symtab(512, 5, 632), k) == SymbolAtIndex(k)
  {
    hide Image, SymbolOf, Half, Word4, Word8, Peek;
    SymbolFields(Image(), Symtab(512, 5, 632), k);
    var at := 512 + 24 * k;
    Words(at);
    Words(at + 6);
    Words(at + 8);
    Words(at + 12);
  }

  function EntryAt(r: nat): Reloc {
    match r
    case 0 => Reloc(0, 1, 1, 5)
    case 1 => Reloc(8, 2, 2, 0xFFFF_FFFF_FFFF_FFFC)
    case 2 => Reloc(12, 4, 3, 0)
    case 3 => Reloc(16, 6, 4, 0)
    case 4 => Reloc(24, 8, 0, 7)
    case _ => Reloc(32, 9, 1, 0)
  }

  lemma Entry0Is()
    ensures RelocOf(AMD64, Image(), RELA, 0) == EntryAt(0)
  {
    hide Image, RelocOf, Half, Word4, Word8, Peek;
    EntryFields(Image(), RELA, 0);
    Words(640);
    Words(644);
    Words(648);
    Words(652);
    Words(656);
    Words(660);
  }

  lemma Entry1Is()
    ensures RelocOf(AMD64, Image(), RELA, 1) == EntryAt(1)
  {
    hide Image, RelocOf, Half, Word4, Word8, Peek;
    EntryFields(Image(), RELA, 1);
    Words(664);
    Words(668);
    Words(672);
    Words(676);
    Words(680);
    Words(684);
  }

  lemma Entry2Is()
    ensures RelocOf(AMD64, Image(), RELA, 2) == EntryAt(2)
  {
    hide Image, RelocOf, Half, Word4, Word8, Peek;
    EntryFields(Image(), RELA, 2);
    Words(688);
    Words(692);
    Words(696);
    Words(700);
    Words(704);
    Words(708);
  }

  lemma Entry3Is()
    ensures RelocOf(AMD64, Image(), RELA, 3) == EntryAt(3)
  {
    hide Image, RelocOf, Half, Word4, Word8, Peek;
    EntryFields(Image(), RELA, 3);
    Words(712);
    Words(716);
    Words(720);
    Words(724);
    Words(728);
    Words(732);
  }

  lemma Entry4Is()
    ensures RelocOf(AMD64, Image(), RELA, 4) == EntryAt(4)
  {
    hide Image, RelocOf, Half, Word4, Word8, Peek;
    EntryFields(Image(), RELA, 4);
    Words(736);
    Words(740);
    Words(744);
    Words(748);
    Words(752);
    Words(756);
  }

  lemma Entry5Is()
    ensures RelocOf(AMD64, Image(), RELA, 5) == EntryAt(5)
  {
    hide Image, RelocOf, Half, Word4, Word8, Peek;
    EntryFields(Image(), RELA, 5);
    Words(760);
    Words(764);
    Words(768);
    Words(772);
    Words(776);
    Words(780);
  }

  lemma EntryIs(r: nat)
    requires r < 6
    ensures RelocOf(AMD64, Image(), RELA, r) == EntryAt(r)
  {
    hide Image, RelocOf;
    match r {
      case 0 => Entry0Is();
      case 1 => Entry1Is();
      case 2 => Entry2Is();
      case 3 => Entry3Is();
      case 4 => Entry4Is();
      case 5 => Entry5Is();
    }
  }

  lemma RelEntryIs()
    ensures RelocOf(AMD64, Image(), REL, 0) == Reloc(40, 2, 1, 0) && Peek(Image(), 840, 8) == 3
  {
    hide Peek, Image, RelocOf, Half, Word4, Word8;
    EntryFields(Image(), REL, 0);
    PeekIs(Image(), 840);
    Words(784);
    Words(788);
    Words(792);
    Words(796);
    Words(840);
    Words(844);
  }

  // ---- What its entries ask for ----

  /** A kernel that has the symbol "f". */
  predicate HasF(kernel: Kernel) {
    [0x66] in kernel && kernel[[0x66]] > 0
  }

  lemma NamesAre()
    ensures ByteAt(Image(), 632) == 0 && ByteAt(Image(), 633) != 0
    ensures Name(Image(), 632, 128) == [] && Name(Image(), 633, 128) == [0x66]
  {
    hide Image;
    assert ByteAt(Image(), 634) == 0;
    assert Name(Image(), 634, 127) == [];
  }

  function PatchAt(kernel: Kernel, r: nat): Patch
    requires HasF(kernel)
  {
    match r
    case 0 => Patch(800, Absolute, InModule(816), Explicit(5))
    case 1 => Patch(808, PcRelative, Fixed(kernel[[0x66]]), Explicit(0xFFFF_FFFF_FFFF_FFFC))
    case 2 => Patch(812, PcRelative, Fixed(0x1234), Explicit(0))
    case 3 => Patch(816, Plain, Fixed(9), Explicit(0))
    case 4 => Patch(824, BasePlus, Fixed(0), Explicit(7))
    case 5 => Patch(832, Skip, InModule(816), Explicit(0))
    case _ => Patch(840, PcRelative, InModule(816), InPlace)
  }

  lemma ResolveIs(kernel: Kernel, rela: bool, k: nat)
    requires HasF(kernel) && 0 < k < 5 && (rela || k == 1)
    ensures Resolve(AMD64, Image(), kernel, rela, k) ==
            match k case 1 => InModule(816) case 2 => Fixed(kernel[[0x66]]) case 3 => Fixed(0x1234) case _ => Fixed(9)
    ensures SymbolInside(AMD64, Image(), rela, k)
  {
    hide Peek, Image, SectionOf, ShNum, SymtabOf, SymbolOf, FindSymtab, ByteAt, Name;
    HeaderIs();
    SymbolsAreThese();
    SymbolIs(k);
    SectionIs(1);
    SectionIs(2);
    SectionIs(3);
    SectionIs(4);
    NamesAre();
  }

  lemma RelaPatchIs(kernel: Kernel, r: nat)
    requires HasF(kernel) && r < 6
    ensures PatchOf(AMD64, Image(), kernel, 5, r) == PatchAt(kernel, r)
    ensures PatchAt(kernel, r).action == BasePlus || SymbolInside(AMD64, Image(), true, EntryAt(r).sym)
  {
    hide Image, SectionOf, RelocOf, Resolve, SymbolInside;
    SectionIs(5);
    SectionIs(1);
    EntryIs(r);
    if EntryAt(r).sym > 0 {
      ResolveIs(kernel, true, EntryAt(r).sym);
    }
  }

  lemma RelPatchIs(kernel: Kernel)
    requires HasF(kernel)
    ensures PatchOf(AMD64, Image(), kernel, 6, 0) == PatchAt(kernel, 6) && SymbolInside(AMD64, Image(), false, 1)
  {
    hide Image, SectionOf, RelocOf, Resolve, SymbolInside;
    SectionIs(6);
    SectionIs(1);
    RelEntryIs();
    ResolveIs(kernel, false, 1);
  }

  lemma CountsAre()
    ensures RelocCount(AMD64, SectionOf(AMD64, Image(), 5)) == 6 && RelocCount(AMD64, SectionOf(AMD64, Image(), 6)) == 1
    ensures forall i :: 0 <= i < 7 ==> (Relevant(AMD64, Image(), i) <==> i == 5 || i == 6)
  {
    hide Image, SectionOf;
    SectionIs(5);
    SectionIs(6);
    forall i | 0 <= i < 7
      ensures Relevant(AMD64, Image(), i) <==> i == 5 || i == 6
    {
      SectionIs(i);
      SectionIs(0);
      SectionIs(1);
    }
  }

  function Patches(kernel: Kernel, from: nat, to: nat): (ps: seq<Patch>)
    requires HasF(kernel) && from <= to
    ensures |ps| == to - from && forall k :: 0 <= k < |ps| ==> ps[k] == PatchAt(kernel, from + k)
  {
    seq(to - from, k requires 0 <= k => PatchAt(kernel, from + k))
  }

  lemma PlanIs(kernel: Kernel)
    requires HasF(kernel)
    ensures Plan(AMD64, Image(), kernel, 0) == Patches(kernel, 0, 7)
  {
    hide Image, Relevant, RelocCount, PatchOf, ShNum, PatchAt, Patches, SectionPlan, Plan, HasF, Peek, SectionOf,
         HasMagic, ShOff;
    HeaderIs();
    CountsAre();
    RelPlan(kernel);
    RelaPlan(kernel, 0);
    JoinAll(kernel);
    Ends(Image(), kernel, 7);
    Takes(Image(), kernel, 6);
    Takes(Image(), kernel, 5);
    Skips(Image(), kernel, 4);
    Skips(Image(), kernel, 3);
    Skips(Image(), kernel, 2);
    Skips(Image(), kernel, 1);
    Skips(Image(), kernel, 0);
  }

  lemma Ends(m: seq<byte>, kernel: Kernel, i: nat)
    requires i == ShNum(AMD64, m)
    ensures Plan(AMD64, m, kernel, i) == []
  {
  }

  lemma Takes(m: seq<byte>, kernel: Kernel, i: nat)
    requires i < ShNum(AMD64, m) && Relevant(AMD64, m, i)
    ensures Plan(AMD64, m, kernel, i) == SectionPlan(AMD64, m, kernel, i, 0) + Plan(AMD64, m, kernel, i + 1)
  {
  }

  lemma Skips(m: seq<byte>, kernel: Kernel, i: nat)
    requires i < ShNum(AMD64, m) && !Relevant(AMD64, m, i)
    ensures Plan(AMD64, m, kernel, i) == Plan(AMD64, m, kernel, i + 1)
  {
    assert [] + Plan(AMD64, m, kernel, i + 1) == Plan(AMD64, m, kernel, i + 1);
  }

  lemma JoinAll(kernel: Kernel)
    requires HasF(kernel)
    ensures Patches(kernel, 6, 7) + [] == Patches(kernel, 6, 7)
    ensures Patches(kernel, 0, 6) + Patches(kernel, 6, 7) == Patches(kernel, 0, 7)
    ensures [] + Patches(kernel, 0, 7) == Patches(kernel, 0, 7)
  {
    hide PatchAt;
  }

  lemma RelPlan(kernel: Kernel)
    requires HasF(kernel)
    ensures SectionPlan(AMD64, Image(), kernel, 6, 0) == Patches(kernel, 6, 7)
  {
    hide Image, RelocCount, PatchOf, PatchAt, SectionPlan, SectionOf;
    CountsAre();
    RelPatchIs(kernel);
    Unfold(Image(), kernel, 6, 0);
    Unfold(Image(), kernel, 6, 1);
  }

  lemma Unfold(m: seq<byte>, kernel: Kernel, i: nat, r: nat)
    ensures SectionPlan(AMD64, m, kernel, i, r) ==
            if r >= RelocCount(AMD64, SectionOf(AMD64, m, i)) then []
            else [PatchOf(AMD64, m, kernel, i, r)] + SectionPlan(AMD64, m, kernel, i, r + 1)
  {
  }

  lemma Join(kernel: Kernel, r: nat)
    requires HasF(kernel) && r < 6
    ensures Patches(kernel, r, 6) == [PatchAt(kernel, r)] + Patches(kernel, r + 1, 6)
  {
    hide PatchAt;
  }

  lemma {:induction false} RelaPlan(kernel: Kernel, r: nat)
    requires HasF(kernel) && r <= 6
    ensures SectionPlan(AMD64, Image(), kernel, 5, r) == Patches(kernel, r, 6)
    decreases 6 - r
  {
    hide Image, RelocCount, PatchOf, PatchAt, SectionPlan, SectionOf, HasF;
    CountsAre();
    Unfold(Image(), kernel, 5, r);
    if r < 6 {
      RelaPatchIs(kernel, r);
      RelaPlan(kernel, r + 1);
      Join(kernel, r);
    }
  }

  // ---- Loading it ----

  lemma SitesFree()
    ensures forall a :: 800 <= a < 848 ==> !Guarded(AMD64, Image(), a)
  {
    hide Peek, Image, SectionOf, ShNum, ShOff, FindSymtab;
    HeaderIs();
    SymbolsAreThese();
    SectionIs(3);
    forall i: nat, a | i < 7 && IsTable(AMD64, Image(), i) && 800 <= a < 848
      ensures !InSection(SectionOf(AMD64, Image(), i), a)
    {
      SectionIs(i);
    }
  }

  lemma ImageRelocatable(kernel: Kernel)
    requires HasF(kernel)
    ensures Relocatable(AMD64, Image(), kernel)
  {
    hide Peek, Image, SectionOf, ShNum, ShOff, FindSymtab, SymtabOf, RelocOf, PatchOf, Relevant, RelocCount,
         RelocInside;
    HeaderIs();
    SymbolsAreThese();
    CountsAre();
    forall i | 0 <= i < 7
      ensures IsReloc(SectionOf(AMD64, Image(), i)) ==> SectionOf(AMD64, Image(), i).info < 7
    {
      SectionIs(i);
    }
    SectionIs(3);
    forall r | 0 <= r < 6
      ensures RelocInside(AMD64, Image(), kernel, 5, r)
    {
      RelaInside(kernel, r);
    }
    RelInside(kernel);
  }

  lemma RelaInside(kernel: Kernel, r: nat)
    requires HasF(kernel) && r < 6
    ensures RelocInside(AMD64, Image(), kernel, 5, r)
  {
    hide Image, SectionOf, RelocOf, PatchOf, Guarded, SymbolInside;
    SitesFree();
    SectionIs(5);
    EntryIs(r);
    RelaPatchIs(kernel, r);
  }

  lemma RelInside(kernel: Kernel)
    requires HasF(kernel)
    ensures RelocInside(AMD64, Image(), kernel, 6, 0)
  {
    hide Image, SectionOf, RelocOf, PatchOf, Guarded, SymbolInside;
    SitesFree();
    SectionIs(6);
    RelEntryIs();
    RelPatchIs(kernel);
  }

  lemma ImageLoads(base: nat, kernel: Kernel)
    requires HasF(kernel)
    ensures var m := Image();
      && HasMagic(m) && Peek(m, 16, 2) == ET_REL && Relocatable(AMD64, m, kernel)
      && Apart(AMD64, Plan(AMD64, m, kernel, 0)) && Run(AMD64, base, m, Plan(AMD64, m, kernel, 0)).0 == 0
      && (forall r: nat :: r < 6 ==> Applies(AMD64, m, 5, r)) && Applies(AMD64, m, 6, 0)
  {
    hide Peek, Image, SectionOf, ShNum, Relevant, RelocCount, Relocatable, Plan, Run;
    HeaderIs();
    CountsAre();
    PlanIs(kernel);
    ImageRelocatable(kernel);
    RunFailsIff(AMD64, base, Image(), Patches(kernel, 0, 7));
  }

  /** Place, addend and symbol value of entry r of section 5. */
  lemma RelaParts(base: nat, kernel: Kernel, r: nat)
    requires HasF(kernel) && r < 6
    ensures SectionOf(AMD64, Image(), 5).kind == 4
    ensures RelocOf(AMD64, Image(), SectionOf(AMD64, Image(), 5), r) == EntryAt(r)
    ensures SiteOf(AMD64, Image(), 5, r) == 800 + EntryAt(r).offset
    ensures AddendAt(AMD64, Image(), 5, r) == EntryAt(r).addend
    ensures EntryAt(r).sym > 0 ==>
      SymbolValue(AMD64, base, Image(), kernel, 5, r) == Address(AMD64, base, PatchAt(kernel, r).target)
  {
    hide Image, SectionOf, RelocOf, Resolve, SymbolInside;
    SectionIs(5);
    SectionIs(1);
    EntryIs(r);
    if EntryAt(r).sym > 0 {
      ResolveIs(kernel, true, EntryAt(r).sym);
    }
  }

  lemma RelParts(base: nat, kernel: Kernel)
    requires HasF(kernel)
    ensures SectionOf(AMD64, Image(), 6).kind == 9
    ensures RelocOf(AMD64, Image(), SectionOf(AMD64, Image(), 6), 0) == Reloc(40, 2, 1, 0)
    ensures SiteOf(AMD64, Image(), 6, 0) == 840 && AddendAt(AMD64, Image(), 6, 0) == 3
    ensures SymbolValue(AMD64, base, Image(), kernel, 6, 0) == (base + 816) % 0x1_0000_0000_0000_0000
  {
    hide Image, SectionOf, RelocOf, Resolve, SymbolInside, Peek;
    SectionIs(6);
    SectionIs(1);
    RelEntryIs();
    ResolveIs(kernel, false, 1);
  }

  lemma RelaRelocated(base: nat, kernel: Kernel)
    requires HasF(kernel)
    ensures var M := 0x1_0000_0000_0000_0000;
      var r := Run(AMD64, base, Image(), Plan(AMD64, Image(), kernel, 0)).1;
      && Peek(r, 800, 8) == (base + 816 + 5) % M
      && Peek(r, 808, 4) == (kernel[[0x66]] - 4 - (base + 808)) % 0x1_0000_0000
      && Peek(r, 812, 4) == (0x1234 - (base + 812)) % 0x1_0000_0000
      && Peek(r, 816, 8) == 9 && Peek(r, 824, 8) == (base + 7) % M
  {
    hide Image, SectionOf, RelocOf, Peek, Run, Plan, Relocatable, Apart, Applies, Resolve, SiteOf, AddendAt,
         SymbolValue;
    var f := kernel[[0x66]];
    ImageLoads(base, kernel);
    RelaParts(base, kernel, 0);
    RelocatedAMD64(base, Image(), kernel, 5, 0);
    WrapWide(base + 816, 5);
    RelaParts(base, kernel, 1);
    RelocatedAMD64(base, Image(), kernel, 5, 1);
    LowHalf(f + 0xFFFF_FFFF_FFFF_FFFC - (base + 808));
    WrapIs(f + 0xFFFF_FFFF_FFFF_FFFC - (base + 808), (f - 4 - (base + 808)) / 0x1_0000_0000 + 0x1_0000_0000,
           (f - 4 - (base + 808)) % 0x1_0000_0000);
    RelaParts(base, kernel, 2);
    RelocatedAMD64(base, Image(), kernel, 5, 2);
    LowHalf(0x1234 - (base + 812));
    RelaParts(base, kernel, 3);
    RelocatedAMD64(base, Image(), kernel, 5, 3);
    RelaParts(base, kernel, 4);
    RelocatedAMD64(base, Image(), kernel, 5, 4);
  }

  lemma RelRelocated(base: nat, kernel: Kernel)
    requires HasF(kernel)
    ensures Peek(Run(AMD64, base, Image(), Plan(AMD64, Image(), kernel, 0)).1, 840, 4) == 0xFFFF_FFEB
  {
    hide Image, SectionOf, RelocOf, Peek, Run, Plan, Relocatable, Apart, Applies, Resolve, SiteOf, AddendAt,
         SymbolValue;
    ImageLoads(base, kernel);
    RelParts(base, kernel);
    RelocatedAMD64(base, Image(), kernel, 6, 0);
    WrapWide(base + 816, 3 - (base + 840));
  }

  lemma GotPcRelKept(base: nat, kernel: Kernel)
    requires HasF(kernel)
    ensures Run(AMD64, base, Image(), Plan(AMD64, Image(), kernel, 0)).1[832] == 0xAB
  {
    hide Image, SectionOf, RelocOf, Run, Plan, RelocCount, Relevant, ShNum, SiteOf;
    HeaderIs();
    CountsAre();
    assert Image()[832] == ByteAt(Image(), 832);
    forall i: nat, r: nat | Applies(AMD64, Image(), i, r)
      ensures !(SiteOf(AMD64, Image(), i, r) <= 832 < SiteOf(AMD64, Image(), i, r) + StoresAMD64(Image(), i, r))
    {
      if i == 5 {
        RelaParts(base, kernel, r);
      } else {
        RelParts(base, kernel);
      }
    }
    UntouchedAMD64(base, Image(), kernel, 832);
  }

  /** What relocation leaves in the 48 bytes, at every address and with every kernel that has "f". */
  lemma ImageRelocated(base: nat, kernel: Kernel)
    requires HasF(kernel)
    ensures var M := 0x1_0000_0000_0000_0000;
      var r := Run(AMD64, base, Image(), Plan(AMD64, Image(), kernel, 0)).1;
      && Peek(r, 800, 8) == (base + 816 + 5) % M
      && Peek(r, 808, 4) == (kernel[[0x66]] - 4 - (base + 808)) % 0x1_0000_0000
      && Peek(r, 812, 4) == (0x1234 - (base + 812)) % 0x1_0000_0000
      && Peek(r, 816, 8) == 9 && Peek(r, 824, 8) == (base + 7) % M
      && Peek(r, 840, 4) == 0xFFFF_FFEB && r[832] == 0xAB
  {
    hide Image, Peek, Run, Plan;
    RelaRelocated(base, kernel);
    RelRelocated(base, kernel);
    GotPcRelKept(base, kernel);
  }
}
