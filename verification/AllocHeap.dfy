/** Blocks in memory, as values (src/kernel/vmem/alloc.c): sizes, headers, and the heap over any
    sequence of calls. */
module AllocHeap {
  import opened AllocModel
  import opened Bytes

  const TOTAL_BITMAP: int := 0x10_0000
  const PAGE_SIZE: int := 4096
  const HEADER: int := 8

  // ---- Sizes ----

  /** How many pages kfree computes from the size in a header (32-bit arithmetic). */
  function PagesFor(total: dword): nat {
    Wrap(total + PAGE_SIZE - 1) / PAGE_SIZE
  }

  /** How many pages kalloc takes: always one at least. */
  function PagesTaken(size: dword): (n: nat)
    ensures n > 0
  {
    var n := PagesFor(Wrap(size + HEADER));
    if n == 0 then 1 else n
  }

  /** The pages taken are the least that hold the block and its header, except when the sum wraps
      around: then they do not hold it. */
  lemma EnoughPagesIff(size: dword)
    ensures PagesTaken(size) * 4096 >= size + 8 <==> size + 8 + 4095 < 0x1_0000_0000
    ensures size + 8 + 4095 < 0x1_0000_0000 ==>
      && (PagesTaken(size) - 1) * 4096 < size + 8
      && PagesFor(size + 8) == PagesTaken(size) && Wrap(size + HEADER) == size + 8
    ensures size + 8 + 4095 >= 0x1_0000_0000 ==> PagesTaken(size) == 1
  {
  }

  // ---- Memory ----

  function Header(total: dword): (s: seq<byte>)
    ensures |s| == HEADER && LE32(s[..4]) == total
  {
    ToLE32(total) + ToLE32(0)
  }

  /** A header is the size in four bytes and a null pointer. */
  lemma HeaderBytes(total: dword)
    ensures Header(total) ==
            [total % 0x100, total / 0x100 % 0x100, total / 0x1_0000 % 0x100, total / 0x100_0000, 0, 0, 0, 0]
  {
    DwordBytes(total);
    DwordBytes(0);
  }

  /** Memory with some pages filled with zeros. */
  ghost function Zeroed(m: seq<byte>, pages: seq<nat>): (r: seq<byte>)
    ensures |r| == |m| && forall k :: 0 <= k < |m| ==> r[k] == if k / PAGE_SIZE in pages then 0 else m[k]
  {
    seq(|m|, k requires 0 <= k < |m| => if k / PAGE_SIZE in pages then 0 else m[k])
  }

  lemma ZeroedMore(m: seq<byte>, pages: seq<nat>, p: nat)
    ensures Zeroed(Zeroed(m, pages), [p]) == Zeroed(m, pages + [p])
  {
  }

  /** Zeroing another page leaves a header where it is. */
  lemma ZeroedBeside(m: seq<byte>, base: nat, h: seq<byte>, p: nat)
    requires |h| == HEADER && (base + 1) * PAGE_SIZE <= |m| && p != base
    ensures Zeroed(Splice(m, base * PAGE_SIZE, h), [p]) == Splice(Zeroed(m, [p]), base * PAGE_SIZE, h)
  {
    assert forall k :: base * PAGE_SIZE <= k < base * PAGE_SIZE + HEADER ==> k / PAGE_SIZE == base;
  }

  /** What kalloc leaves in memory: zeroed pages and the header in the first of them. */
  ghost function Allocated(m: seq<byte>, pages: seq<nat>, total: dword): (r: seq<byte>)
    requires pages != [] && (pages[0] + 1) * PAGE_SIZE <= |m|
    ensures |r| == |m|
  {
    Splice(Zeroed(m, pages), pages[0] * PAGE_SIZE, Header(total))
  }

  lemma AllocatedMore(m: seq<byte>, free: seq<nat>, n: nat, total: dword)
    requires 0 < n < |free| && (free[0] + 1) * PAGE_SIZE <= |m| && free[0] != free[n]
    ensures Zeroed(Allocated(m, free[..n], total), [free[n]]) == Allocated(m, free[..n + 1], total)
  {
    hide Zeroed, Splice, Header;
    ZeroedBeside(Zeroed(m, free[..n]), free[0], Header(total), free[n]);
    ZeroedMore(m, free[..n], free[n]);
    assert free[..n + 1] == free[..n] + [free[n]];
  }

  lemma NoneMarked(used: seq<bool>)
    ensures Marked(used, []) == used
  {
  }

  /** The first page taken from the list. */
  lemma TakeFirst(used: seq<bool>)
    requires FreePages(used) != []
    ensures var free := FreePages(used);
      Marked(used, free[..1]) == used[free[0] := true] && FreePages(used[free[0] := true]) == free[1..]
  {
    hide FreePages, Marked;
    FreeAfterAlloc(used, 0);
    TakeNext(used, 0);
    NoneMarked(used);
    assert FreePages(used)[..0] == [];
  }

  lemma AllocatedHeader(m: seq<byte>, pages: seq<nat>, total: dword)
    requires pages != [] && (pages[0] + 1) * PAGE_SIZE <= |m|
    ensures var at := pages[0] * PAGE_SIZE; LE32(Allocated(m, pages, total)[at..at + 4]) == total
  {
    var at := pages[0] * PAGE_SIZE;
    assert Allocated(m, pages, total)[at..at + 4] == Header(total)[..4];
  }

  /** kfree, reading the size back from the header, gives back the bitmap that kalloc found
      exactly if the pages were consecutive and the size in the header does not wrap to 0 pages. */
  lemma {:induction false} KfreeUndoesKallocIff(used: seq<bool>, m: seq<byte>, size: dword)
    requires |used| == TOTAL_BITMAP && |m| == TOTAL_BITMAP * PAGE_SIZE && PagesTaken(size) <= |FreePages(used)|
    ensures var n, free, total := PagesTaken(size), FreePages(used), Wrap(size + HEADER);
      var at := free[0] * PAGE_SIZE;
      Cleared(Marked(used, free[..n]), free[0], PagesFor(LE32(Allocated(m, free[..n], total)[at..at + 4]))) == used
      <==> total != 0 && total + PAGE_SIZE - 1 < WORD && Consecutive(used, n)
  {
    hide FreePages, Allocated, Consecutive;
    var n, free, total := PagesTaken(size), FreePages(used), Wrap(size + HEADER);
    AllocatedHeader(m, free[..n], total);
    FreeUndoesAllocIff(used, n);
    if PagesFor(total) == 0 {
      assert free[0] == free[..n][0];
      assert Cleared(Marked(used, free[..n]), free[0], 0)[free[0]] && !used[free[0]];
    }
  }

  // ---- The heap ----

  /** How many pages each block was given. */
  function PageCounts(live: map<nat, dword>): (r: map<nat, nat>)
    ensures r.Keys == live.Keys && forall b :: b in live ==> r[b] == PagesTaken(live[b])
  {
    map b | b in live :: PagesTaken(live[b])
  }

  /** The bitmap, the memory it describes, and the live blocks: the size that was asked for, by the
      block's first page. */
  datatype Heap = Heap(used: seq<bool>, memory: seq<byte>, live: map<nat, dword>)
  {
    ghost predicate Shaped() {
      |used| == TOTAL_BITMAP && |memory| == TOTAL_BITMAP * PAGE_SIZE
    }

    /** Live blocks have disjoint pages, the bitmap is their union, each block lies in its pages,
        and each header has its block's size. */
    ghost predicate Sound() {
      && Shaped() && Ok(Pages())
      && forall b :: b in live ==> Holds(live[b]) && HeaderPages(b) == PagesTaken(live[b])
    }

    function Pages(): State {
      State(used, PageCounts(live))
    }

    /** The pages that kfree computes from the header in page `b`. */
    function HeaderPages(b: nat): nat {
      if (b + 1) * PAGE_SIZE <= |memory| then PagesFor(LE32(memory[b * PAGE_SIZE..b * PAGE_SIZE + 4])) else 0
    }

    /** Byte a belongs to block b: its header, or what its client asked for. */
    predicate InBlock(b: nat, a: nat)
      requires b in live
    {
      b * PAGE_SIZE <= a < b * PAGE_SIZE + HEADER + live[b]
    }

    /** What clients rely on: every byte of a block exists, is on a page in use, so that no later
        block gets it, and belongs to no other block. */
    ghost predicate Safe()
      requires Shaped()
    {
      forall b, a {:trigger InBlock(b, a)} :: b in live && 0 <= a && InBlock(b, a) ==>
        a < |memory| && used[a / PAGE_SIZE] && forall c :: c in live && InBlock(c, a) ==> c == b
    }
  }

  /** The pages taken for a size hold the block. */
  predicate Holds(size: dword) {
    PagesTaken(size) * PAGE_SIZE >= size + HEADER
  }

  /** Calls of the allocator, a block given by its first page, and a client's write inside a block. */
  datatype Call = Kalloc(size: dword) | Kfree(page: nat) | Write(page: nat, at: nat, value: byte)

  predicate Allowed(h: Heap, c: Call) {
    match c
    case Kalloc(size) => size == 0 || PagesTaken(size) <= |FreePages(h.used)|
    case Kfree(page) => page in h.live
    case Write(page, at, value) =>
      page in h.live && HEADER <= at < HEADER + h.live[page] && page * PAGE_SIZE + at < |h.memory|
  }

  ghost function After(h: Heap, c: Call): (r: Heap)
    requires h.Shaped() && Allowed(h, c)
    ensures r.Shaped()
  {
    match c
    case Kalloc(size) =>
      if size == 0 then h
      else
        var pages := FreePages(h.used)[..PagesTaken(size)];
        Heap(Marked(h.used, pages), Allocated(h.memory, pages, Wrap(size + HEADER)), h.live[pages[0] := size])
    case Kfree(page) => Heap(Cleared(h.used, page, h.HeaderPages(page)), h.memory, h.live - {page})
    case Write(page, at, value) => Heap(h.used, h.memory[page * PAGE_SIZE + at := value], h.live)
  }

  /** A request whose size does not wrap around, and whose pages lie side by side. */
  predicate Fitting(h: Heap, c: Call) {
    c.Kalloc? && c.size > 0 ==>
      c.size + HEADER + PAGE_SIZE - 1 < WORD && Consecutive(h.used, PagesTaken(c.size))
  }

  /** kalloc writes to pages that were free only. */
  lemma {:induction false} KallocKeepsBlocks(h: Heap, size: dword, k: nat)
    requires h.Sound() && Allowed(h, Kalloc(size)) && k < |h.memory| && h.used[k / PAGE_SIZE]
    ensures After(h, Kalloc(size)).memory[k] == h.memory[k]
  {
    hide FreePages, Marked, Header;
    if size > 0 {
      var free := FreePages(h.used);
      assert free[..PagesTaken(size)][0] == free[0];
      assert k / PAGE_SIZE != free[0];
    }
  }

  /** An allocation keeps the heap sound exactly if the request is fitting. */
  lemma {:induction false} KallocSoundIff(h: Heap, size: dword)
    requires h.Sound() && Allowed(h, Kalloc(size)) && size > 0
    ensures After(h, Kalloc(size)).Sound() <==> Fitting(h, Kalloc(size))
  {
    hide FreePages, Allocated, Marked, Ok, Consecutive, Wrap, PagesTaken, PagesFor, LE32;
    var n, free, total, r := PagesTaken(size), FreePages(h.used), Wrap(size + HEADER), After(h, Kalloc(size));
    var pages := free[..n];
    assert pages[0] == free[0] && |pages| == n;
    AllocOkIff(h.Pages(), n);
    assert r.Pages() == Step(h.Pages(), Alloc(n));
    AllocatedHeader(h.memory, pages, total);
    assert r.HeaderPages(free[0]) == PagesFor(total);
    EnoughPagesIff(size);
    forall b | b in h.live && b != free[0]
      ensures r.HeaderPages(b) == PagesTaken(h.live[b])
    {
      HeaderStays(h, size, b);
    }
  }

  lemma {:induction false} HeaderStays(h: Heap, size: dword, b: nat)
    requires h.Sound() && Allowed(h, Kalloc(size)) && b in h.live
    ensures After(h, Kalloc(size)).HeaderPages(b) == PagesTaken(h.live[b])
  {
    hide FreePages, Allocated, Marked, PagesFor, LE32;
    var r, at := After(h, Kalloc(size)), b * PAGE_SIZE;
    LiveUsed(h.Pages(), b);
    forall k | at <= k < at + 4
      ensures r.memory[k] == h.memory[k]
    {
      KallocKeepsBlocks(h, size, k);
    }
    assert r.memory[at..at + 4] == h.memory[at..at + 4];
  }

  lemma LiveUsed(s: State, b: nat)
    requires Ok(s) && b in s.live
    ensures s.live[b] > 0 && b + s.live[b] <= |s.used| && s.used[b]
  {
    assert Covered(s.live, b);
  }

  // ---- What clients rely on ----

  /** The page of a byte of a block on a sound heap is one of the block's. */
  lemma InBlockPage(h: Heap, b: nat, a: nat)
    requires h.Sound() && b in h.live && h.InBlock(b, a)
    ensures b <= a / PAGE_SIZE < b + PagesTaken(h.live[b]) <= TOTAL_BITMAP && h.used[a / PAGE_SIZE]
  {
    hide PagesTaken;
    LiveUsed(h.Pages(), b);
    assert Holds(h.live[b]);
    assert Covered(h.Pages().live, a / PAGE_SIZE);
  }

  lemma {:induction false} SoundIsSafe(h: Heap)
    requires h.Sound()
    ensures h.Safe()
  {
    hide PagesTaken, Ok;
    forall b, a | b in h.live && 0 <= a && h.InBlock(b, a)
      ensures a < |h.memory| && h.used[a / PAGE_SIZE] && forall c :: c in h.live && h.InBlock(c, a) ==> c == b
    {
      InBlockPage(h, b, a);
      forall c | c in h.live && h.InBlock(c, a)
        ensures c == b
      {
        InBlockPage(h, c, a);
        OnePage(h.Pages(), b, c, a / PAGE_SIZE);
      }
    }
  }

  lemma OnePage(s: State, b: nat, c: nat, p: nat)
    requires Ok(s) && b in s.live && c in s.live && b <= p < b + s.live[b] && c <= p < c + s.live[c]
    ensures b == c
  {
  }

  /** A new block overlaps no other one, and lies on pages in use, exactly if the request is
      fitting: its size does not wrap around and its pages lie side by side. */
  lemma {:induction false} KallocSafeIff(h: Heap, size: dword)
    requires h.Sound() && Allowed(h, Kalloc(size)) && size > 0
    ensures After(h, Kalloc(size)).Safe() <==> Fitting(h, Kalloc(size))
  {
    hide FreePages, Allocated, Marked, Ok, Consecutive, Wrap, PagesTaken, Heap.Safe, Heap.Sound;
    if Fitting(h, Kalloc(size)) {
      KallocSoundIff(h, size);
      SoundIsSafe(After(h, Kalloc(size)));
    } else if size + HEADER + PAGE_SIZE - 1 < WORD {
      FragmentedUnsafe(h, size);
    } else {
      WrappedUnsafe(h, size);
    }
  }

  /** Some page of the block's range was in use, or lies past the last one. */
  lemma {:induction false} FragmentedUnsafe(h: Heap, size: dword)
    requires h.Sound() && Allowed(h, Kalloc(size)) && size > 0
    requires size + HEADER + PAGE_SIZE - 1 < WORD && !Consecutive(h.used, PagesTaken(size))
    ensures !After(h, Kalloc(size)).Safe()
  {
    hide FreePages, Allocated, Marked, Consecutive, Wrap, PagesTaken, Ok;
    var n, free, r := PagesTaken(size), FreePages(h.used), After(h, Kalloc(size));
    var base := free[0];
    assert free[..n][0] == base;
    BlockWasFreeIff(h.used, n);
    EnoughPagesIff(size);
    var last := (base + n - 1) * PAGE_SIZE;
    assert last < base * PAGE_SIZE + HEADER + size;
    assert r.InBlock(base, last);
    if base + n <= TOTAL_BITMAP {
      var p :| base <= p < base + n && h.used[p];
      var c := BlockBehind(h, base, p);
      assert r.InBlock(c, c * PAGE_SIZE) && r.InBlock(base, c * PAGE_SIZE);
    }
  }

  /** The block of a page in use behind a free one starts behind it. */
  lemma BlockBehind(h: Heap, base: nat, p: nat) returns (c: nat)
    requires h.Sound() && base < p < TOTAL_BITMAP && !h.used[base] && h.used[p]
    ensures c in h.live && base < c <= p
  {
    var live := h.Pages().live;
    assert Covered(live, p) && !Covered(live, base);
    c :| c in live && c <= p < c + live[c];
  }

  /** The block gets one page and the next one does not belong to it. */
  lemma {:induction false} WrappedUnsafe(h: Heap, size: dword)
    requires h.Sound() && Allowed(h, Kalloc(size)) && size > 0 && size + HEADER + PAGE_SIZE - 1 >= WORD
    ensures !After(h, Kalloc(size)).Safe()
  {
    hide FreePages, Allocated, Marked, Ok;
    assert PagesTaken(size) == 1;
    var free, r := FreePages(h.used), After(h, Kalloc(size));
    hide PagesTaken;
    var base := free[0];
    var next := (base + 1) * PAGE_SIZE;
    assert free[..1] == [base];
    assert r.InBlock(base, next) && next / PAGE_SIZE == base + 1;
    if base + 1 < TOTAL_BITMAP && h.used[base + 1] {
      var c := BlockBehind(h, base, base + 1);
      assert r.InBlock(c, next);
    }
  }

  // ---- Runs ----

  /** On a sound heap kfree, which goes by the header, clears the pages of its block. */
  lemma {:induction false} KfreeSound(h: Heap, page: nat)
    requires h.Sound() && page in h.live
    ensures After(h, Kfree(page)).Sound() && After(h, Kfree(page)).Pages() == Step(h.Pages(), Free(page))
  {
    hide PagesFor, LE32, Ok, Cleared, PagesTaken;
    LiveUsed(h.Pages(), page);
    FreeOk(h.Pages(), page);
    assert PageCounts(h.live - {page}) == PageCounts(h.live) - {page};
  }

  /** A client's write inside its block leaves every header. */
  lemma {:induction false} WriteSound(h: Heap, page: nat, at: nat, value: byte)
    requires h.Sound() && Allowed(h, Write(page, at, value))
    ensures After(h, Write(page, at, value)).Sound()
  {
    hide PagesFor, LE32, PagesTaken, Ok, Heap.Safe;
    var r := After(h, Write(page, at, value));
    SoundIsSafe(h);
    forall b | b in h.live
      ensures r.HeaderPages(b) == PagesTaken(h.live[b])
    {
      LiveUsed(h.Pages(), b);
      HeaderSpared(h, page, at, b);
      assert r.memory[b * PAGE_SIZE..b * PAGE_SIZE + 4] == h.memory[b * PAGE_SIZE..b * PAGE_SIZE + 4];
    }
  }

  lemma HeaderSpared(h: Heap, page: nat, at: nat, b: nat)
    requires h.Shaped() && h.Safe() && page in h.live && b in h.live && HEADER <= at < HEADER + h.live[page]
    ensures !(b * PAGE_SIZE <= page * PAGE_SIZE + at < b * PAGE_SIZE + 4)
  {
    var a := page * PAGE_SIZE + at;
    assert h.InBlock(page, a);
    if b * PAGE_SIZE <= a < b * PAGE_SIZE + 4 {
      assert h.InBlock(b, a);
    }
  }

  /** A run in which every request is fitting. */
  ghost predicate Calls(h: Heap, cs: seq<Call>)
    requires h.Shaped()
    decreases |cs|
  {
    cs == [] || (Allowed(h, cs[0]) && Fitting(h, cs[0]) && Calls(After(h, cs[0]), cs[1..]))
  }

  ghost function AfterAll(h: Heap, cs: seq<Call>): (r: Heap)
    requires h.Shaped() && Calls(h, cs)
    ensures r.Shaped()
    decreases |cs|
  {
    if cs == [] then h else AfterAll(After(h, cs[0]), cs[1..])
  }

  /** Over every run of fitting requests, frees and client writes the heap stays sound, hence safe
      for its clients. */
  lemma {:induction false} HeapStaysSound(h: Heap, cs: seq<Call>)
    requires h.Sound() && Calls(h, cs)
    ensures AfterAll(h, cs).Sound() && AfterAll(h, cs).Safe()
    decreases |cs|
  {
    hide After, Fitting, Allowed, Heap.Safe;
    if cs == [] {
      SoundIsSafe(h);
    } else {
      CallSound(h, cs[0]);
      HeapStaysSound(After(h, cs[0]), cs[1..]);
    }
  }

  lemma {:induction false} CallSound(h: Heap, c: Call)
    requires h.Sound() && Allowed(h, c) && Fitting(h, c)
    ensures After(h, c).Sound()
  {
    match c {
      case Kalloc(size) =>
        if size > 0 {
          KallocSoundIff(h, size);
        }
      case Kfree(page) => KfreeSound(h, page);
      case Write(page, at, value) => WriteSound(h, page, at, value);
    }
  }

  // ---- What a client reads back ----

  /** A client's byte stays until its client writes it or frees the block, whatever else is
      allocated, freed and written. */
  ghost predicate Untouched(cs: seq<Call>, page: nat, at: nat) {
    forall i :: 0 <= i < |cs| ==> cs[i] != Kfree(page) && !(cs[i].Write? && cs[i].page == page && cs[i].at == at)
  }

  lemma {:induction false} BytesStay(h: Heap, cs: seq<Call>, page: nat, at: nat)
    requires h.Sound() && Calls(h, cs) && Untouched(cs, page, at)
    requires page in h.live && HEADER <= at < HEADER + h.live[page]
    ensures var a, r := page * PAGE_SIZE + at, AfterAll(h, cs);
      page in r.live && r.live[page] == h.live[page] && a < |h.memory| && r.memory[a] == h.memory[a]
    decreases |cs|
  {
    hide After, Fitting, Allowed, Heap.Sound;
    InMemory(h, page, at);
    if cs != [] {
      CallSound(h, cs[0]);
      CallKeepsByte(h, cs[0], page, at);
      forall i | 0 <= i < |cs[1..]|
        ensures cs[1..][i] != Kfree(page) && !(cs[1..][i].Write? && cs[1..][i].page == page && cs[1..][i].at == at)
      {
        assert cs[1..][i] == cs[i + 1];
      }
      BytesStay(After(h, cs[0]), cs[1..], page, at);
    }
  }

  lemma InMemory(h: Heap, page: nat, at: nat)
    requires h.Sound() && page in h.live && at < HEADER + h.live[page]
    ensures h.Shaped() && page * PAGE_SIZE + at < |h.memory|
    ensures h.used[(page * PAGE_SIZE + at) / PAGE_SIZE] && h.used[page]
  {
    InBlockPage(h, page, page * PAGE_SIZE + at);
    LiveUsed(h.Pages(), page);
  }

  lemma {:induction false} CallKeepsByte(h: Heap, c: Call, page: nat, at: nat)
    requires h.Sound() && Allowed(h, c) && page in h.live && HEADER <= at < HEADER + h.live[page]
    requires c != Kfree(page) && !(c.Write? && c.page == page && c.at == at)
    ensures var a, r := page * PAGE_SIZE + at, After(h, c);
      page in r.live && r.live[page] == h.live[page] && a < |h.memory| && r.memory[a] == h.memory[a]
  {
    hide PagesTaken, Ok, Allocated, FreePages, Marked, Cleared, Heap.Safe, Heap.Sound, Heap.HeaderPages;
    InMemory(h, page, at);
    match c {
      case Kalloc(size) =>
        KallocKeepsBlocks(h, size, page * PAGE_SIZE + at);
        if size > 0 {
          assert FreePages(h.used)[..PagesTaken(size)][0] != page;
        }
      case Kfree(other) =>
      case Write(other, at', value) =>
        SoundIsSafe(h);
        if other * PAGE_SIZE + at' == page * PAGE_SIZE + at {
          OneBlock(h, other, at', page, at);
        }
    }
  }

  lemma OneBlock(h: Heap, b: nat, i: nat, c: nat, j: nat)
    requires h.Shaped() && h.Safe() && b in h.live && c in h.live
    requires i < HEADER + h.live[b] && j < HEADER + h.live[c] && b * PAGE_SIZE + i == c * PAGE_SIZE + j
    ensures b == c && i == j
  {
    assert h.InBlock(b, b * PAGE_SIZE + i) && h.InBlock(c, b * PAGE_SIZE + i);
  }

  // ---- A fragmented heap ----

  /** What is behind page 3 of memory, without a header. */
  const REST: dword := (TOTAL_BITMAP - 3) * PAGE_SIZE - HEADER

  lemma Sizes()
    ensures PagesTaken(1) == 1 == PagesFor(1 + HEADER) && Holds(1)
    ensures PagesTaken(5000) == 2 == PagesFor(5000 + HEADER)
    ensures PagesTaken(REST) == TOTAL_BITMAP - 3 == PagesFor(REST + HEADER) && Holds(REST)
  {
  }

  /** A sound heap whose free pages are 0 and 2. */
  ghost function FragmentedHeap(): (h: Heap)
    ensures h.Shaped() && h.live == map[1 := 1, 3 := REST]
    ensures forall i :: 0 <= i < TOTAL_BITMAP ==> (h.used[i] <==> i != 0 && i != 2)
    ensures h.memory[PAGE_SIZE..PAGE_SIZE + 4] == ToLE32(1 + HEADER)
    ensures h.memory[3 * PAGE_SIZE..3 * PAGE_SIZE + 4] == ToLE32(REST + HEADER)
  {
    var first := ToLE32(1 + HEADER);
    var second := ToLE32(REST + HEADER);
    Heap(seq(TOTAL_BITMAP, i => i != 0 && i != 2),
         seq(TOTAL_BITMAP * PAGE_SIZE, k requires 0 <= k =>
           if PAGE_SIZE <= k < PAGE_SIZE + 4 then first[k - PAGE_SIZE]
           else if 3 * PAGE_SIZE <= k < 3 * PAGE_SIZE + 4 then second[k - 3 * PAGE_SIZE]
           else 0),
         map[1 := 1, 3 := REST])
  }

  lemma FragmentedOk(s: State)
    requires s.live == map[1 := 1, 3 := TOTAL_BITMAP - 3] && |s.used| == TOTAL_BITMAP
    requires forall i :: 0 <= i < TOTAL_BITMAP ==> (s.used[i] <==> i != 0 && i != 2)
    ensures Ok(s)
  {
    forall i | 0 <= i < TOTAL_BITMAP
      ensures s.used[i] <==> Covered(s.live, i)
    {
      assert i == 1 ==> 1 in s.live && 1 <= i < 1 + s.live[1];
      assert i >= 3 ==> 3 in s.live && 3 <= i < 3 + s.live[3];
    }
  }

  lemma FragmentedSound()
    ensures FragmentedHeap().Sound()
  {
    hide FragmentedHeap, LE32, ToLE32, Ok, PagesTaken, PagesFor, Holds;
    var h := FragmentedHeap();
    Sizes();
    assert PageCounts(h.live) == map[1 := 1, 3 := TOTAL_BITMAP - 3];
    FragmentedOk(h.Pages());
  }

  lemma {:induction false} NoneFree(used: seq<bool>, k: nat)
    requires k <= |used| && forall i :: k <= i < |used| ==> used[i]
    ensures FreeFrom(used, k) == []
    decreases |used| - k
  {
    if k < |used| {
      NoneFree(used, k + 1);
    }
  }

  lemma FragmentedPages(used: seq<bool>)
    requires |used| == TOTAL_BITMAP && forall i :: 0 <= i < TOTAL_BITMAP ==> (used[i] <==> i != 0 && i != 2)
    ensures FreePages(used) == [0, 2]
  {
    NoneFree(used, 3);
    assert FreeFrom(used, 2) == [2] + FreeFrom(used, 3);
    assert FreeFrom(used, 1) == FreeFrom(used, 2);
  }

  /** After a request for 5000 bytes. */
  lemma FragmentedAfter()
    ensures var h := FragmentedHeap();
      && h.Sound() && Allowed(h, Kalloc(5000))
      && var r := After(h, Kalloc(5000));
         r.live == map[0 := 5000, 1 := 1, 3 := REST] && r.used == Marked(h.used, [0, 2]) && r.HeaderPages(0) == 2
  {
    hide FragmentedHeap, LE32, Allocated, FreePages, Marked, PagesTaken, PagesFor, Heap.Sound;
    var h := FragmentedHeap();
    Sizes();
    FragmentedSound();
    FragmentedPages(h.used);
    assert [0, 2][..2] == [0, 2];
    AllocatedHeader(h.memory, [0, 2], 5000 + HEADER);
  }

  ghost function Overlapping(): (r: Heap)
    ensures r.Shaped() && r.live == map[0 := 5000, 1 := 1, 3 := REST] && r.HeaderPages(0) == 2
    ensures r.used == Marked(FragmentedHeap().used, [0, 2])
  {
    FragmentedAfter();
    After(FragmentedHeap(), Kalloc(5000))
  }

  ghost function Freed(): (r: Heap)
    ensures r.Shaped() && r.live == map[1 := 1, 3 := REST]
    ensures r.used == Cleared(Overlapping().used, 0, 2)
  {
    Heap(Cleared(Overlapping().used, 0, 2), Overlapping().memory, map[1 := 1, 3 := REST])
  }

  /** A block of 5000 bytes is returned at page 0 and runs into the block in page 1. */
  lemma FragmentedBlock()
    ensures FragmentedHeap().Sound() && Allowed(FragmentedHeap(), Kalloc(5000))
    ensures After(FragmentedHeap(), Kalloc(5000)) == Overlapping()
    ensures Overlapping().InBlock(0, PAGE_SIZE + HEADER) && Overlapping().InBlock(1, PAGE_SIZE + HEADER)
  {
    FragmentedAfter();
  }

  /** Freeing it takes page 1 from its block and leaves page 2 in use for ever. */
  lemma {:induction false} FragmentedFree()
    ensures After(Overlapping(), Kfree(0)) == Freed()
    ensures 1 in Freed().live && !Freed().used[1]
    ensures Freed().used[2] && !Covered(Freed().Pages().live, 2)
  {
    hide Overlapping, Freed, FragmentedHeap, PagesTaken, FreePages;
    var live := Freed().Pages().live;
    Sizes();
    assert live == map[1 := 1, 3 := TOTAL_BITMAP - 3];
    FreedIs();
  }

  lemma FreedIs()
    ensures After(Overlapping(), Kfree(0)) == Freed()
  {
    hide Overlapping, FragmentedHeap;
    assert Overlapping().live - {0} == Freed().live;
  }
}
