/** Where the fields of ELF headers, symbols and entries lie (System V ABI, chapter 4, "Object
    Files"), byte by byte, for both word sizes. */
module ElfFields {
  import opened Bytes
  import opened Elf
  import opened ElfLaws
  import opened ElfFormulas
  import ElfRelocate

  // ---- Little-endian numbers ----

  function Half(m: seq<byte>, at: nat): nat {
    ByteAt(m, at) as int + 0x100 * ByteAt(m, at + 1) as int
  }

  function Word4(m: seq<byte>, at: nat): nat {
    Half(m, at) + 0x1_0000 * Half(m, at + 2)
  }

  function Word8(m: seq<byte>, at: nat): nat {
    Word4(m, at) + 0x1_0000_0000 * Word4(m, at + 4)
  }

  /** What the relocators read from memory. */
  lemma {:induction false} PeekIs(m: seq<byte>, at: nat)
    ensures Peek(m, at, 2) == Half(m, at) && Peek(m, at, 4) == Word4(m, at) && Peek(m, at, 8) == Word8(m, at)
  {
    hide ByteAt, Half;
    PeekHalf(m, at);
    PeekFour(m, at);
    PeekFour(m, at + 4);
    PeekSplit(m, at);
  }

  lemma PeekHalf(m: seq<byte>, at: nat)
    ensures Peek(m, at, 2) == Half(m, at)
  {
    assert Peek(m, at + 1, 1) == ByteAt(m, at + 1) as int;
  }

  lemma {:induction false} PeekFour(m: seq<byte>, at: nat)
    ensures Peek(m, at, 4) == Word4(m, at)
  {
    PeekHalf(m, at + 2);
    assert Peek(m, at + 1, 3) == ByteAt(m, at + 1) as int + 0x100 * Peek(m, at + 2, 2);
  }

  // ---- Fields ----

  lemma {:induction false} SectionFields(m: seq<byte>, i: nat)
    ensures var at := Word4(m, 32) + 40 * i;
      SectionOf(IA32, m, i) == Section(Word4(m, at + 4), Word4(m, at + 8), Word4(m, at + 16), Word4(m, at + 20),
                                       Word4(m, at + 24), Word4(m, at + 28))
    ensures var at := Word8(m, 40) + 64 * i;
      SectionOf(AMD64, m, i) == Section(Word4(m, at + 4), Word8(m, at + 8), Word8(m, at + 24), Word8(m, at + 32),
                                        Word4(m, at + 40), Word4(m, at + 44))
    ensures ShNum(IA32, m) == Half(m, 48) && ShNum(AMD64, m) == Half(m, 60)
  {
    hide Peek, Word4, Word8, Half;
    PeekIs(m, 32);
    PeekIs(m, 40);
    PeekIs(m, 48);
    PeekIs(m, 60);
    var a, b := Word4(m, 32) + 40 * i, Word8(m, 40) + 64 * i;
    PeekIs(m, a + 4);
    PeekIs(m, a + 8);
    PeekIs(m, a + 16);
    PeekIs(m, a + 20);
    PeekIs(m, a + 24);
    PeekIs(m, a + 28);
    PeekIs(m, b + 4);
    PeekIs(m, b + 8);
    PeekIs(m, b + 24);
    PeekIs(m, b + 32);
    PeekIs(m, b + 40);
    PeekIs(m, b + 44);
  }

  lemma {:induction false} SymbolFields(m: seq<byte>, st: Symtab, k: nat)
    ensures var at := st.symbols + 16 * k;
      SymbolOf(IA32, m, st, k) == Symbol(Word4(m, at), Word4(m, at + 4), Half(m, at + 14))
    ensures var at := st.symbols + 24 * k;
      SymbolOf(AMD64, m, st, k) == Symbol(Word4(m, at), Word8(m, at + 8), Half(m, at + 6))
  {
    hide Peek, Word4, Word8, Half;
    var a, b := st.symbols + 16 * k, st.symbols + 24 * k;
    PeekIs(m, a);
    PeekIs(m, a + 4);
    PeekIs(m, a + 14);
    PeekIs(m, b);
    PeekIs(m, b + 8);
    PeekIs(m, b + 6);
  }

  /** Entries of RELA sections (kind 4) have an addend, those of REL sections (kind 9) do not. */
  lemma {:induction false} EntryFields(m: seq<byte>, s: Section, r: nat)
    ensures var at := s.offset + (if s.kind == 4 then 12 else 8) * r;
      RelocOf(IA32, m, s, r) ==
      Reloc(Word4(m, at), Word4(m, at + 4) % 0x100, Word4(m, at + 4) / 0x100,
            if s.kind == 4 then Word4(m, at + 8) else 0)
    ensures var at := s.offset + (if s.kind == 4 then 24 else 16) * r;
      RelocOf(AMD64, m, s, r) ==
      Reloc(Word8(m, at), Word8(m, at + 8) % 0x1_0000_0000, Word8(m, at + 8) / 0x1_0000_0000,
            if s.kind == 4 then Word8(m, at + 16) else 0)
  {
    hide Peek, Word4, Word8, Half;
    var a, b := RelocAt(IA32, s, r), RelocAt(AMD64, s, r);
    PeekIs(m, a);
    PeekIs(m, a + 4);
    PeekIs(m, a + 8);
    PeekIs(m, b);
    PeekIs(m, b + 8);
    PeekIs(m, b + 16);
  }

  /** An entry applies if it is one of a section of kind 4 or 9 for a section whose flag 2 (loaded)
      is set. */
  lemma AppliesIff(w: Arch, m: seq<byte>, i: nat, r: nat)
    ensures Applies(w, m, i, r) <==>
      && i < ShNum(w, m) && SectionOf(w, m, i).kind in {4, 9}
      && SectionOf(w, m, SectionOf(w, m, i).info).flags / 2 % 2 == 1
      && r < SectionOf(w, m, i).size / (if w == IA32 then (if SectionOf(w, m, i).kind == 4 then 12 else 8)
                                        else if SectionOf(w, m, i).kind == 4 then 24 else 16)
  {
    hide SectionOf, ShNum;
  }

  /** The symbols are those of the first section of kind 2, and their names those of the section it
      links to; without one there are none. */
  lemma {:induction false} SymbolsAre(w: Arch, m: seq<byte>, i: nat)
    ensures (i < ShNum(w, m) && SectionOf(w, m, i).kind == 2
             && forall j: nat :: j < i ==> SectionOf(w, m, j).kind != 2) ==>
      SymtabOf(w, m) == Symtab(SectionOf(w, m, i).offset, SectionOf(w, m, i).size / (if w == IA32 then 16 else 24),
                               SectionOf(w, m, SectionOf(w, m, i).link).offset)
    ensures (forall j: nat :: j < ShNum(w, m) ==> SectionOf(w, m, j).kind != 2) ==> SymtabOf(w, m) == Symtab(0, 0, 0)
  {
    hide SectionOf, ShNum, FindSymtab;
    FirstSymtab(w, m);
  }

  lemma FirstSymtab(w: Arch, m: seq<byte>)
    ensures var f := FindSymtab(w, m, 0);
      && f <= ShNum(w, m) && (f < ShNum(w, m) ==> SectionOf(w, m, f).kind == 2)
      && forall j: nat :: j < f ==> SectionOf(w, m, j).kind != 2
  {
    hide SectionOf, ShNum;
    ElfRelocate.FindSymtabIs(w, m, 0);
  }

  // ---- Symbol values ----

  /** The value of an entry's symbol, by its fields: none (0) when the index is not checked to be in
      the table, the address in the module of a loaded section (flag 2), the plain value for other
      sections and for 0xFFF1 in RELA sections, the kernel's address for 0 with a name. */
  lemma SymbolValueIs(w: Arch, base: nat, m: seq<byte>, kernel: Kernel, i: nat, r: nat)
    ensures var sec, st := SectionOf(w, m, i), SymtabOf(w, m);
      var k := RelocOf(w, m, sec, r).sym;
      var s, M := SymbolOf(w, m, st, k), if w == IA32 then 0x1_0000_0000 else 0x1_0000_0000_0000_0000;
      var value := SymbolValue(w, base, m, kernel, i, r);
      if (sec.kind == 4 || w == AMD64) && (k == 0 || st.count <= k) then value == 0
      else if 0 < s.shndx < ShNum(w, m) then
        var t := SectionOf(w, m, s.shndx);
        value == if t.flags / 2 % 2 == 1 then (base + t.offset + s.value) % M else s.value
      else if s.shndx == 0 then
        var name := Name(m, st.names + s.name, 128);
        value == if ByteAt(m, st.names + s.name) != 0 && name in kernel then kernel[name] else 0
      else value == if s.shndx == 0xFFF1 && sec.kind == 4 then s.value else 0
  {
    hide SectionOf, ShNum, SymtabOf, SymbolOf, RelocOf, Name, ByteAt;
    var s := SymbolOf(w, m, SymtabOf(w, m), RelocOf(w, m, SectionOf(w, m, i), r).sym);
    assert base + (SectionOf(w, m, s.shndx).offset + s.value) == base + SectionOf(w, m, s.shndx).offset + s.value;
  }
}
