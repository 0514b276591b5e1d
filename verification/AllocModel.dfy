/** The block allocator as values (src/kernel/vmem/alloc.c): a bitmap of pages, of which kalloc
    takes the lowest free ones and kfree clears as many from the block's first page on. */
module AllocModel {

  // ---- Free pages ----

  /** The free pages from page `k` on, in ascending order. */
  function FreeFrom(used: seq<bool>, k: nat): (r: seq<nat>)
    requires k <= |used|
    ensures forall j :: 0 <= j < |r| ==> k <= r[j] < |used| && !used[r[j]]
    ensures forall i, j :: 0 <= i < j < |r| ==> r[i] < r[j]
    ensures |r| <= |used| - k
    ensures forall i :: k <= i < |used| && (r == [] || i < r[0]) ==> used[i]
    decreases |used| - k
  {
    if k == |used| then []
    else if used[k] then FreeFrom(used, k + 1)
    else [k] + FreeFrom(used, k + 1)
  }

  function FreePages(used: seq<bool>): (r: seq<nat>)
    ensures forall j :: 0 <= j < |r| ==> r[j] < |used| && !used[r[j]]
    ensures forall i, j :: 0 <= i < j < |r| ==> r[i] < r[j]
    ensures forall i :: 0 <= i < |used| && (r == [] || i < r[0]) ==> used[i]
  {
    FreeFrom(used, 0)
  }

  lemma {:induction false} FreeMember(used: seq<bool>, k: nat, p: nat)
    requires k <= p < |used| && !used[p]
    ensures p in FreeFrom(used, k)
    decreases |used| - k
  {
    if k < p {
      FreeMember(used, k + 1, p);
    }
  }

  /** Taking a free page takes it out of the list, leaving what is before and after. */
  lemma {:induction false} FreeWithout(used: seq<bool>, k: nat, p: nat)
    requires k <= |used| && p < |used| && (forall i :: k <= i < p ==> used[i])
    requires !used[p]
    ensures k <= p ==> FreeFrom(used, k) != [] && FreeFrom(used, k)[0] == p
    ensures FreeFrom(used[p := true], k) == if k <= p then FreeFrom(used, k)[1..] else FreeFrom(used, k)
    decreases |used| - k
  {
    if k < |used| {
      FreeWithout(used, k + 1, p);
    }
  }

  // ---- kalloc and kfree on the bitmap ----

  function Marked(used: seq<bool>, pages: seq<nat>): (r: seq<bool>)
    ensures |r| == |used| && forall i :: 0 <= i < |r| ==> r[i] == (used[i] || i in pages)
  {
    seq(|used|, i requires 0 <= i < |used| => used[i] || i in pages)
  }

  function Cleared(used: seq<bool>, base: nat, n: nat): (r: seq<bool>)
    ensures |r| == |used| && forall i :: 0 <= i < |r| ==> r[i] == (used[i] && !(base <= i < base + n))
  {
    seq(|used|, i requires 0 <= i < |used| => used[i] && !(base <= i < base + n))
  }

  /** The n lowest free pages lie side by side. */
  predicate Consecutive(used: seq<bool>, n: nat) {
    var free := FreePages(used);
    0 < n <= |free| && free[n - 1] == free[0] + n - 1
  }

  /** Ascending numbers that end n - 1 after the first are all the numbers between. */
  lemma {:induction false} AscendingBy(s: seq<nat>, i: nat, j: nat)
    requires i <= j < |s| && forall a, b :: 0 <= a < b < |s| ==> s[a] < s[b]
    ensures s[j] >= s[i] + (j - i)
    decreases j
  {
    if i < j {
      AscendingBy(s, i, j - 1);
    }
  }

  lemma ConsecutiveIs(used: seq<bool>, n: nat)
    requires Consecutive(used, n)
    ensures var free := FreePages(used); forall j :: 0 <= j < n ==> free[j] == free[0] + j
  {
    var free := FreePages(used);
    forall j | 0 <= j < n
      ensures free[j] == free[0] + j
    {
      AscendingBy(free, 0, j);
      AscendingBy(free, j, n - 1);
    }
  }

  /** kfree undoes kalloc on the bitmap exactly if the n lowest free pages were consecutive. */
  lemma {:induction false} FreeUndoesAllocIff(used: seq<bool>, n: nat)
    requires 0 < n <= |FreePages(used)|
    ensures var free := FreePages(used);
      Cleared(Marked(used, free[..n]), free[0], n) == used <==> Consecutive(used, n)
  {
    var free := FreePages(used);
    var after := Cleared(Marked(used, free[..n]), free[0], n);
    AscendingBy(free, 0, n - 1);
    if Consecutive(used, n) {
      ConsecutiveIs(used, n);
      assert forall i :: i in free[..n] ==> free[0] <= i < free[0] + n;
      forall i | 0 <= i < |used|
        ensures after[i] == used[i]
      {
        if free[0] <= i < free[0] + n {
          assert free[i - free[0]] == i;
        }
      }
    } else {
      var p := free[n - 1];
      assert free[..n][n - 1] == p;
      assert after[p] && !used[p];
    }
  }

  /** The block that kalloc returns consists of pages that were free exactly if they were
      consecutive; otherwise it runs into a page in use or past the last one. */
  lemma {:induction false} BlockWasFreeIff(used: seq<bool>, n: nat)
    requires 0 < n <= |FreePages(used)|
    ensures var base := FreePages(used)[0];
      (base + n <= |used| && forall i :: base <= i < base + n ==> !used[i]) <==> Consecutive(used, n)
  {
    var free := FreePages(used);
    var base := free[0];
    AscendingBy(free, 0, n - 1);
    if Consecutive(used, n) {
      ConsecutiveIs(used, n);
      forall i | base <= i < base + n
        ensures !used[i]
      {
        assert free[i - base] == i;
      }
    }
    if base + n <= |used| && forall i :: base <= i < base + n ==> !used[i] {
      FreeRunTaken(used, n, n - 1);
    }
  }

  /** A run of free pages that starts at the first free one is the head of the list. */
  lemma {:induction false} FreeRunTaken(used: seq<bool>, n: nat, j: nat)
    requires j < n <= |FreePages(used)|
    requires var base := FreePages(used)[0]; base + n <= |used| && forall i :: base <= i < base + n ==> !used[i]
    ensures FreePages(used)[j] == FreePages(used)[0] + j
    decreases j
  {
    hide FreeFrom, FreePages;
    var free := FreePages(used);
    RunMember(used, n, j);
    var k :| 0 <= k < |free| && free[k] == free[0] + j;
    if k < j {
      FreeRunTaken(used, n, k);
    } else {
      AscendingBy(free, 0, j);
      AscendingBy(free, j, k);
    }
  }

  lemma RunMember(used: seq<bool>, n: nat, j: nat)
    requires j < n <= |FreePages(used)|
    requires var base := FreePages(used)[0]; base + n <= |used| && forall i :: base <= i < base + n ==> !used[i]
    ensures FreePages(used)[0] + j in FreePages(used)
  {
    FreeMember(used, 0, FreePages(used)[0] + j);
  }

  /** The free pages after the n lowest were taken. */
  lemma {:induction false} FreeAfterAlloc(used: seq<bool>, n: nat)
    requires n <= |FreePages(used)|
    ensures FreePages(Marked(used, FreePages(used)[..n])) == FreePages(used)[n..]
    decreases n
  {
    var free := FreePages(used);
    if n == 0 {
      assert Marked(used, []) == used;
    } else {
      FreeAfterAlloc(used, n - 1);
      TakeNext(used, n - 1);
    }
  }

  /** Taking one more page takes the first free one. */
  lemma {:induction false} TakeNext(used: seq<bool>, n: nat)
    requires n < |FreePages(used)| && FreePages(Marked(used, FreePages(used)[..n])) == FreePages(used)[n..]
    ensures var free := FreePages(used); var half := Marked(used, free[..n]);
      && Marked(used, free[..n + 1]) == half[free[n] := true]
      && FreePages(half[free[n] := true]) == free[n + 1..]
  {
    hide FreeFrom, Marked, FreePages;
    var free := FreePages(used);
    var half, p := Marked(used, free[..n]), free[n];
    assert free[..n + 1] == free[..n] + [p];
    assert Marked(used, free[..n + 1]) == half[p := true];
    assert FreePages(half)[0] == p;
    FirstTaken(half);
  }

  /** The first free page taken. */
  lemma FirstTaken(used: seq<bool>)
    requires FreePages(used) != []
    ensures var p := FreePages(used)[0];
      FreePages(used[p := true]) == FreePages(used)[1..]
  {
    FreeWithout(used, 0, FreePages(used)[0]);
  }

  // ---- Runs ----

  /** The bitmap and the live blocks: how many pages each has, by its first page. */
  datatype State = State(used: seq<bool>, live: map<nat, nat>)

  datatype Event = Alloc(n: nat) | Free(base: nat)

  predicate Covered(live: map<nat, nat>, i: nat) {
    exists b :: b in live && b <= i < b + live[b]
  }

  /** Live blocks are disjoint ranges of pages and the bitmap is their union. */
  ghost predicate Ok(s: State) {
    && (forall b :: b in s.live ==> s.live[b] > 0 && b + s.live[b] <= |s.used|)
    && (forall b, c :: b in s.live && c in s.live && b < c ==> b + s.live[b] <= c)
    && (forall i :: 0 <= i < |s.used| ==> (s.used[i] <==> Covered(s.live, i)))
  }

  /** A request is for at least one page and there are enough; a live block is freed. */
  predicate Enabled(s: State, e: Event) {
    match e
    case Alloc(n) => 0 < n <= |FreePages(s.used)|
    case Free(base) => base in s.live
  }

  function Step(s: State, e: Event): State
    requires Enabled(s, e)
  {
    match e
    case Alloc(n) => var free := FreePages(s.used); State(Marked(s.used, free[..n]), s.live[free[0] := n])
    case Free(base) => State(Cleared(s.used, base, s.live[base]), s.live - {base})
  }

  /** An allocation keeps live blocks disjoint and the bitmap their union exactly if it finds its
      pages side by side. */
  lemma {:induction false} AllocOkIff(s: State, n: nat)
    requires Ok(s) && Enabled(s, Alloc(n))
    ensures Ok(Step(s, Alloc(n))) <==> Consecutive(s.used, n)
  {
    hide FreeFrom, FreePages, Marked;
    var free, t := FreePages(s.used), Step(s, Alloc(n));
    var base := free[0];
    BlockWasFreeIff(s.used, n);
    if Consecutive(s.used, n) {
      BlockFits(s, n);
      BlockCounted(s, n);
    } else {
      AscendingBy(free, 0, n - 1);
      var p := free[n - 1];
      assert free[..n][n - 1] == p;
      assert t.used[p] && !Covered(s.live, p);
      forall b | b in t.live
        ensures !(b <= p < b + t.live[b])
      {
        assert b != base ==> b in s.live && s.live[b] == t.live[b];
      }
    }
  }

  /** A free range of pages lies between the live blocks. */
  lemma BlockFits(s: State, n: nat)
    requires Ok(s) && Enabled(s, Alloc(n)) && Consecutive(s.used, n)
    ensures var base := FreePages(s.used)[0];
      base + n <= |s.used| && base !in s.live && forall b :: b in s.live ==> b + s.live[b] <= base || base + n <= b
  {
    hide FreeFrom, FreePages;
    var base := FreePages(s.used)[0];
    BlockWasFreeIff(s.used, n);
    forall b | b in s.live
      ensures b + s.live[b] <= base || base + n <= b
    {
      assert base <= b < base + n ==> !Covered(s.live, b);
      assert !Covered(s.live, base);
    }
  }

  lemma BlockCounted(s: State, n: nat)
    requires Ok(s) && Enabled(s, Alloc(n)) && Consecutive(s.used, n)
    requires FreePages(s.used)[0] !in s.live
    ensures var t := Step(s, Alloc(n)); forall i :: 0 <= i < |t.used| ==> (t.used[i] <==> Covered(t.live, i))
  {
    hide FreeFrom, FreePages, Marked;
    var free, t := FreePages(s.used), Step(s, Alloc(n));
    var base := free[0];
    ConsecutiveIs(s.used, n);
    forall i | 0 <= i < |t.used|
      ensures t.used[i] <==> Covered(t.live, i)
    {
      if base <= i < base + n {
        assert free[..n][i - base] == i;
        assert base in t.live;
      } else {
        assert i !in free[..n];
        if Covered(s.live, i) {
          var b :| b in s.live && b <= i < b + s.live[b];
          assert b in t.live && t.live[b] == s.live[b];
        }
        if Covered(t.live, i) {
          var b :| b in t.live && b <= i < b + t.live[b];
          assert b in s.live && t.live[b] == s.live[b];
        }
      }
    }
  }

  /** A page of a disjoint block is covered by that block or without it. */
  lemma CoveredWithout(live: map<nat, nat>, base: nat, i: nat)
    requires base in live && forall b, c :: b in live && c in live && b < c ==> b + live[b] <= c
    ensures Covered(live - {base}, i) <==> Covered(live, i) && !(base <= i < base + live[base])
  {
    var rest := live - {base};
    if Covered(live, i) {
      var b :| b in live && b <= i < b + live[b];
      assert b != base ==> b in rest && rest[b] == live[b];
    }
    if Covered(rest, i) {
      var b :| b in rest && b <= i < b + rest[b];
      assert b in live && live[b] == rest[b];
    }
  }

  lemma {:induction false} FreeOk(s: State, base: nat)
    requires Ok(s) && base in s.live
    ensures Ok(Step(s, Free(base)))
  {
    hide Cleared, FreePages, Marked;
    var t := Step(s, Free(base));
    forall i | 0 <= i < |t.used|
      ensures t.used[i] <==> Covered(t.live, i)
    {
      CoveredWithout(s.live, base, i);
    }
  }

  /** A run in which every request finds its pages side by side; one page always does. */
  ghost predicate Runs(s: State, es: seq<Event>)
    decreases |es|
  {
    es == [] ||
    (Enabled(s, es[0]) && (es[0].Alloc? && es[0].n > 1 ==> Consecutive(s.used, es[0].n))
        && Runs(Step(s, es[0]), es[1..]))
  }

  ghost function Run(s: State, es: seq<Event>): State
    requires Runs(s, es)
    decreases |es|
  {
    if es == [] then s else Run(Step(s, es[0]), es[1..])
  }

  lemma {:induction false} RunOk(s: State, es: seq<Event>)
    requires Ok(s) && Runs(s, es)
    ensures Ok(Run(s, es))
    decreases |es|
  {
    hide Ok, Step;
    if es != [] {
      match es[0] {
        case Alloc(n) => AllocOkIff(s, n);
        case Free(base) => FreeOk(s, base);
      }
      RunOk(Step(s, es[0]), es[1..]);
    }
  }

  /** Freeing a block gives back as many pages as it has. */
  lemma {:induction false} FreeCount(s: State, base: nat)
    requires Ok(s) && base in s.live
    ensures |FreePages(Step(s, Free(base)).used)| == |FreePages(s.used)| + s.live[base]
  {
    forall i | base <= i < base + s.live[base]
      ensures s.used[i]
    {
      assert Covered(s.live, i);
    }
    ClearedCount(s.used, base, s.live[base], 0);
  }

  lemma {:induction false} ClearedCount(used: seq<bool>, base: nat, n: nat, k: nat)
    requires k <= |used| && base + n <= |used| && forall i :: base <= i < base + n ==> used[i]
    ensures |FreeFrom(Cleared(used, base, n), k)| ==
      |FreeFrom(used, k)| + (if k <= base then n else if k <= base + n then base + n - k else 0)
    decreases |used| - k
  {
    if k < |used| {
      ClearedCount(used, base, n, k + 1);
    }
  }
}
