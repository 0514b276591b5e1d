/** The page bitmap and the kernel's allocator (src/kernel/vmem/bitmap.c, alloc.c). */
module Alloc {
  import opened AllocHeap
  import opened AllocModel
  import opened Bytes

  // ---- Bits ----

  function Mask(bit: nat): bv8
    requires bit < 8
  {
    1 << bit
  }

  predicate IsSet(b: bv8, bit: nat)
    requires bit < 8
  {
    b & Mask(bit) != 0
  }

  lemma SetBit(b: bv8, bit: nat, other: nat)
    requires bit < 8 && other < 8
    ensures IsSet(b | Mask(bit), other) <==> other == bit || IsSet(b, other)
  {
    MaskIs(bit);
    MaskIs(other);
  }

  lemma ClearBit(b: bv8, bit: nat, other: nat)
    requires bit < 8 && other < 8
    ensures IsSet(b & !Mask(bit), other) <==> other != bit && IsSet(b, other)
  {
    MaskIs(bit);
    MaskIs(other);
  }

  lemma MaskOf(bit: nat)
    requires bit < 8
    ensures Mask(bit) == 1 << bit
  {
  }

  lemma MaskIs(bit: nat)
    requires bit < 8
    ensures Mask(bit) ==
      if bit == 0 then 1 else if bit == 1 then 2 else if bit == 2 then 4 else if bit == 3 then 8
      else if bit == 4 then 16 else if bit == 5 then 32 else if bit == 6 then 64 else 128
  {
  }

  function Bits(s: seq<bv8>): (r: seq<bool>)
    ensures |r| == 8 * |s| && forall i :: 0 <= i < |r| ==> r[i] == IsSet(s[i / 8], i % 8)
  {
    seq(8 * |s|, i requires 0 <= i < 8 * |s| => IsSet(s[i / 8], i % 8))
  }

  /** Setting or clearing a bit of one byte sets or clears one page. */
  lemma BitsUpdate(s: seq<bv8>, page: nat)
    requires page < 8 * |s|
    ensures Bits(s[page / 8 := s[page / 8] | Mask(page % 8)]) == Bits(s)[page := true]
    ensures Bits(s[page / 8 := s[page / 8] & !Mask(page % 8)]) == Bits(s)[page := false]
  {
    hide IsSet, Mask, Bits, Differ;
    var b, bit := s[page / 8], page % 8;
    SetByte(b, bit);
    ByteUpdate(s, page, b | Mask(bit), true);
    ByteUpdate(s, page, b & !Mask(bit), false);
  }

  /** `c` is `b` with one bit set to `v`. */
  ghost predicate Differ(b: bv8, c: bv8, bit: nat, v: bool) {
    forall other :: 0 <= other < 8 ==> IsSet(c, other) == if other == bit then v else IsSet(b, other)
  }

  lemma SetByte(b: bv8, bit: nat)
    requires bit < 8
    ensures Differ(b, b | Mask(bit), bit, true) && Differ(b, b & !Mask(bit), bit, false)
  {
    hide IsSet, Mask;
    forall other | 0 <= other < 8 {
      SetBit(b, bit, other);
    }
    forall other | 0 <= other < 8 {
      ClearBit(b, bit, other);
    }
  }

  lemma ByteUpdate(s: seq<bv8>, page: nat, b: bv8, v: bool)
    requires page < 8 * |s|
    requires Differ(s[page / 8], b, page % 8, v)
    ensures Bits(s[page / 8 := b]) == Bits(s)[page := v]
  {
    hide IsSet, Bits;
    var t := s[page / 8 := b];
    forall i | 0 <= i < 8 * |s|
      ensures Bits(t)[i] == Bits(s)[page := v][i]
    {
      SamePlace(i, page);
      assert Bits(t)[i] == IsSet(t[i / 8], i % 8);
    }
  }

  lemma SamePlace(i: nat, j: nat)
    ensures i == j <==> i / 8 == j / 8 && i % 8 == j % 8
  {
  }

  // ---- The allocator ----

  datatype PageResult = Page(address: nat) | NoPage

  datatype Allocation = Null | Block(address: nat) | OutOfMemory

  /** `memory` is the memory from the symbol MemoryStart, at address `start`, on; `live` the blocks
      handed out, which no code reads. */
  class Memory {
    const start: nat
    const pageBitmap: array<bv8>
    const memory: array<byte>
    ghost var live: map<nat, dword>

    constructor (start: nat, pageBitmap: array<bv8>, memory: array<byte>)
      requires pageBitmap.Length == TOTAL_BITMAP / 8 && memory.Length == TOTAL_BITMAP * PAGE_SIZE
      ensures Valid() && this.start == start && this.pageBitmap == pageBitmap && this.memory == memory
      ensures live == map[]
    {
      this.start, this.pageBitmap, this.memory := start, pageBitmap, memory;
      live := map[];
    }

    predicate Valid() {
      pageBitmap.Length == TOTAL_BITMAP / 8 && memory.Length == TOTAL_BITMAP * PAGE_SIZE
    }

    ghost function Used(): (r: seq<bool>)
      requires Valid()
      reads pageBitmap
      ensures |r| == TOTAL_BITMAP
    {
      Bits(pageBitmap[..])
    }

    ghost function Now(): (h: Heap)
      requires Valid()
      reads this, pageBitmap, memory
      ensures h.Shaped()
    {
      Heap(Used(), memory[..], live)
    }

    lemma UsedAt(i: nat)
      requires Valid() && i < TOTAL_BITMAP
      ensures Used()[i] <==> pageBitmap[i / 8] & (1 << (i % 8)) != 0
    {
      assert pageBitmap[..][i / 8] == pageBitmap[i / 8];
    }

    method MStat() returns (free: nat)
      requires Valid()
      ensures free == |FreePages(Used())|
    {
      hide Used, IsSet;
      free := 0;
      for i := 0 to TOTAL_BITMAP
        invariant free + |FreeFrom(Used(), i)| == |FreePages(Used())|
      {
        UsedAt(i);
        if pageBitmap[i / 8] & (1 << (i % 8)) == 0 {
          free := free + 1;
        }
      }
    }

    /** The first free page, now in use; -1 when there is none. */
    method GetFreePage() returns (r: int)
      requires Valid()
      modifies pageBitmap
      ensures var free := FreePages(old(Used()));
        if free == [] then r == -1 && Used() == old(Used()) else r == free[0] && Used() == old(Used())[r := true]
    {
      hide Bits, IsSet, Mask;
      for i := 0 to TOTAL_BITMAP
        invariant pageBitmap[..] == old(pageBitmap[..])
        invariant FreeFrom(Used(), i) == FreePages(Used())
      {
        UsedAt(i);
        if pageBitmap[i / 8] & (1 << (i % 8)) == 0 {
          BitsUpdate(pageBitmap[..], i);
          assert Mask(i % 8) == 1 << (i % 8) by {
            MaskOf(i % 8);
          }
          pageBitmap[i / 8] := pageBitmap[i / 8] | (1 << (i % 8));
          return i;
        }
      }
      return -1;
    }

    method FreePage(page: nat)
      requires Valid() && start <= page < start + TOTAL_BITMAP * PAGE_SIZE
      modifies pageBitmap
      ensures Used() == old(Used())[(page - start) / PAGE_SIZE := false]
    {
      var pageIdx := (page - start) / PAGE_SIZE;
      BitsUpdate(pageBitmap[..], pageIdx);
      pageBitmap[pageIdx / 8] := pageBitmap[pageIdx / 8] & !(1 << (pageIdx % 8));
    }

    /** A zeroed page; AllocatePage panics when there is none. */
    method AllocatePage() returns (r: PageResult)
      requires Valid()
      modifies pageBitmap, memory
      ensures var free := FreePages(old(Used()));
        if free == [] then r == NoPage && Used() == old(Used()) && memory[..] == old(memory[..])
        else r == Page(start + free[0] * PAGE_SIZE) && Used() == old(Used())[free[0] := true]
             && memory[..] == Zeroed(old(memory[..]), [free[0]])
    {
      hide Bits, FreePages;
      var pageIdx := GetFreePage();
      if pageIdx == -1 {
        return NoPage;
      }
      ghost var was := memory[..];
      for i := 0 to PAGE_SIZE
        invariant forall k :: 0 <= k < memory.Length ==>
          memory[k] == if pageIdx * PAGE_SIZE <= k < pageIdx * PAGE_SIZE + i then 0 else was[k]
        modifies memory
      {
        memory[pageIdx * PAGE_SIZE + i] := 0;
      }
      assert forall k :: 0 <= k < memory.Length ==>
          (k / PAGE_SIZE in [pageIdx] <==> pageIdx * PAGE_SIZE <= k < (pageIdx + 1) * PAGE_SIZE);
      return Page(start + pageIdx * PAGE_SIZE);
    }

    /** BlockHeader: the size with the header, and a null pointer. */
    method WriteHeader(page: nat, total: dword)
      requires Valid() && page < TOTAL_BITMAP
      modifies memory
      ensures memory[..] == Splice(old(memory[..]), page * PAGE_SIZE, Header(total))
    {
      var header := Header(total);
      forall k | 0 <= k < HEADER {
        memory[page * PAGE_SIZE + k] := header[k];
      }
    }

    /** The block starts behind its header in the first page taken, which are the lowest free
        ones, wherever they lie. */
    method kalloc(size: dword) returns (r: Allocation)
      requires Valid()
      modifies this`live, pageBitmap, memory
      ensures var free, n := FreePages(old(Used())), PagesTaken(size);
        if size == 0 then r == Null
        else if n > |free| then r == OutOfMemory && Used() == Marked(old(Used()), free)
        else r == Block(start + free[0] * 4096 + 8)
      ensures Allowed(old(Now()), Kalloc(size)) ==> Now() == After(old(Now()), Kalloc(size))
    {
      hide FreePages, Used, Marked, Allocated, PagesFor;
      if size == 0 {
        return Null;
      }
      ghost var free := FreePages(Used());
      r := AllocateBlocks(size);
      if r.Block? {
        live := live[free[0] := size];
      }
    }

    /** The pages of kalloc: the first with the header, then the others. */
    method AllocateBlocks(size: dword) returns (r: Allocation)
      requires Valid() && size > 0
      modifies pageBitmap, memory
      ensures var free, n := FreePages(old(Used())), PagesTaken(size);
        if n > |free| then r == OutOfMemory && Used() == Marked(old(Used()), free)
        else
          && r == Block(start + free[0] * PAGE_SIZE + HEADER)
          && Used() == Marked(old(Used()), free[..n])
          && memory[..] == Allocated(old(memory[..]), free[..n], Wrap(size + HEADER))
    {
      hide FreePages, Used, Marked, Allocated, PagesFor;
      ghost var free, used, m := FreePages(Used()), Used(), memory[..];
      var total := Wrap(size + HEADER);
      var needed := PagesFor(total);
      var first := AllocateBlock(total);
      if first.NoPage? {
        NoneMarked(used);
        return OutOfMemory;
      }
      var i := 1;
      while i < needed
        invariant 1 <= i <= PagesTaken(size) && i <= |free|
        invariant Used() == Marked(used, free[..i]) && FreePages(Used()) == free[i..]
        invariant memory[..] == Allocated(m, free[..i], total)
        modifies pageBitmap, memory
      {
        var next := AllocateAnother(used, free, m, i, total);
        if next.NoPage? {
          return OutOfMemory;
        }
        i := i + 1;
      }
      return Block(first.address + HEADER);
    }

    /** The i-th page after the first. */
    method AllocateAnother(ghost used: seq<bool>, ghost free: seq<nat>, ghost m: seq<byte>, ghost i: nat,
            ghost total: dword)
      returns (r: PageResult)
      requires Valid() && free == FreePages(used) && 0 < i <= |free| && |used| == TOTAL_BITMAP
          && |m| == TOTAL_BITMAP * PAGE_SIZE
      requires Used() == Marked(used, free[..i]) && FreePages(Used()) == free[i..]
      requires memory[..] == Allocated(m, free[..i], total)
      modifies pageBitmap, memory
      ensures if i == |free| then r == NoPage && Used() == Marked(used, free)
              else
                && r.Page? && Used() == Marked(used, free[..i + 1]) && FreePages(Used()) == free[i + 1..]
                && memory[..] == Allocated(m, free[..i + 1], total)
    {
      hide FreePages, Used, Marked, Allocated, Zeroed;
      r := AllocatePage();
      if r.Page? {
        TakeNext(used, i);
        AllocatedMore(m, free, i, total);
      } else {
        assert free[..i] == free;
      }
    }

    /** The first page, with the header. */
    method AllocateBlock(total: dword) returns (r: PageResult)
      requires Valid()
      modifies pageBitmap, memory
      ensures var free := FreePages(old(Used()));
        if free == [] then r == NoPage && Used() == old(Used())
        else
          && r == Page(start + free[0] * PAGE_SIZE) && Used() == Marked(old(Used()), free[..1])
          && FreePages(Used()) == free[1..] && memory[..] == Allocated(old(memory[..]), free[..1], total)
    {
      hide FreePages, Bits, Zeroed, Splice, Header, Marked;
      ghost var used := Used();
      r := AllocatePage();
      if r.Page? {
        TakeFirst(used);
        assert FreePages(used)[..1] == [FreePages(used)[0]];
        WriteHeader((r.address - start) / PAGE_SIZE, total);
      }
    }

    /** On a sound heap every live block may be freed. */
    lemma LiveBlocksMayBeFreed(page: nat)
      requires Valid() && Now().Sound() && page in live
      ensures page < TOTAL_BITMAP
          && page + PagesFor(LE32(memory[page * PAGE_SIZE..page * PAGE_SIZE + 4])) <= TOTAL_BITMAP
    {
      hide PagesFor, LE32;
      LiveUsed(Now().Pages(), page);
      assert Now().HeaderPages(page) == PagesTaken(live[page]);
      assert memory[..][page * PAGE_SIZE..page * PAGE_SIZE + 4] == memory[page * PAGE_SIZE..page * PAGE_SIZE + 4];
    }

    /** Clears as many pages as the header says, from the header's page on. The block must lie
        within the memory that the bitmap describes, which kfree does not check. */
    method kfree(base: nat)
      requires Valid() && start + HEADER <= base && (base - HEADER - start) % PAGE_SIZE == 0
      requires base <= start + TOTAL_BITMAP * PAGE_SIZE
      requires var at := base - HEADER - start; at / PAGE_SIZE + PagesFor(LE32(memory[at..at + 4])) <= TOTAL_BITMAP
      modifies this`live, pageBitmap
      ensures var at := base - HEADER - start;
        && Used() == Cleared(old(Used()), at / PAGE_SIZE, PagesFor(LE32(memory[at..at + 4])))
        && (at / PAGE_SIZE in old(live) ==> Now() == After(old(Now()), Kfree(at / PAGE_SIZE)))
    {
      hide Bits;
      var at := base - HEADER - start;
      var pages := PagesFor(LE32(memory[at..at + 4]));
      var first := at / PAGE_SIZE;
      assert at == first * PAGE_SIZE && memory[..][at..at + 4] == memory[at..at + 4];
      live := live - {first};
      for i := 0 to pages
        invariant Used() == Cleared(old(Used()), first, i)
        modifies pageBitmap
      {
        FreePage(base - HEADER + i * PAGE_SIZE);
      }
    }
  }
}
