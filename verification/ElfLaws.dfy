/** What relocation amounts to: patching one after the other is patching all at once, and moving
    the load address moves exactly the words it should. */
module ElfLaws {
  import opened Bytes
  import opened Elf

  // ---- Sequential is simultaneous ----

  predicate Beside(w: Arch, p: Patch, q: Patch) {
    p.site + Width(w, p) <= q.site || q.site + Width(w, q) <= p.site
  }

  /** No two patches store the same byte. */
  ghost predicate Apart(w: Arch, ps: seq<Patch>) {
    forall i, j :: 0 <= i < j < |ps| ==> Beside(w, ps[i], ps[j])
  }

  predicate Touches(w: Arch, p: Patch, a: nat) {
    p.site <= a < p.site + Width(w, p)
  }

  /** A relocation run fails exactly when some symbol is unresolved. */
  lemma {:induction false} RunFailsIff(w: Arch, base: nat, m: seq<byte>, ps: seq<Patch>)
    ensures Run(w, base, m, ps).0 == if exists i :: 0 <= i < |ps| && ps[i].target == Unresolved then -1 else 0
    decreases |ps|
  {
    if ps != [] && ps[0].target != Unresolved {
      RunFailsIff(w, base, ApplyPatch(w, base, m, ps[0]), ps[1..]);
      if exists i :: 0 <= i < |ps[1..]| && ps[1..][i].target == Unresolved {
        var i :| 0 <= i < |ps[1..]| && ps[1..][i].target == Unresolved;
        assert ps[i + 1].target == Unresolved;
      }
    }
  }

  /** Bytes that no patch touches are never changed, even by a run that fails. */
  lemma {:induction false} RunFrame(w: Arch, base: nat, m: seq<byte>, ps: seq<Patch>, a: nat)
    requires a < |m| && forall i :: 0 <= i < |ps| ==> !Touches(w, ps[i], a)
    ensures Run(w, base, m, ps).1[a] == m[a]
    decreases |ps|
  {
    if ps != [] && ps[0].target != Unresolved {
      var m1 := ApplyPatch(w, base, m, ps[0]);
      assert m1[a] == m[a] by {
        assert !Touches(w, ps[0], a);
        WidthSmall(w, ps[0]);
      }
      RunFrame(w, base, m1, ps[1..], a);
    }
  }

  lemma WidthSmall(w: Arch, p: Patch)
    ensures Width(w, p) <= w.Word()
  {
  }

  lemma ValueFits(w: Arch, base: nat, m: seq<byte>, p: Patch)
    ensures Value(w, base, m, p) < Pow256(Width(w, p))
  {
    assert Pow256(4) == 0x1_0000_0000 by {
      Powers();
    }
    assert Pow256(8) == 0x1_0000_0000_0000_0000 by {
      Powers();
    }
    hide Pow256;
    assert Pow256(0) > 0;
  }

  lemma Powers()
    ensures Pow256(0) == 1 && Pow256(4) == 0x1_0000_0000 && Pow256(8) == 0x1_0000_0000_0000_0000
  {
    assert Pow256(2) == 0x1_0000;
    assert Pow256(4) == 0x1_0000 * Pow256(2);
    assert Pow256(6) == 0x1_0000 * Pow256(4);
    assert Pow256(8) == 0x1_0000 * Pow256(6);
  }

  /** A patch's own word holds its value right after it was applied. */
  lemma ApplyStores(w: Arch, base: nat, m: seq<byte>, p: Patch)
    requires Fits(w, |m|, p)
    ensures Peek(ApplyPatch(w, base, m, p), p.site, Width(w, p)) == Value(w, base, m, p)
  {
    WidthSmall(w, p);
    ValueFits(w, base, m, p);
    PeekEncode(ApplyPatch(w, base, m, p), p.site, Value(w, base, m, p), Width(w, p));
  }

  lemma {:induction false} PeekSplit(m: seq<byte>, at: nat)
    ensures Peek(m, at, 8) == Peek(m, at, 4) + 0x1_0000_0000 * Peek(m, at + 4, 4)
  {
    assert Peek(m, at + 4 + 4, 0) == 0;
    assert Peek(m, at + 3, 5) == ByteAt(m, at + 3) as int + 0x100 * Peek(m, at + 4, 4);
    assert Peek(m, at + 2, 6) == ByteAt(m, at + 2) as int + 0x100 * Peek(m, at + 3, 5);
    assert Peek(m, at + 1, 7) == ByteAt(m, at + 1) as int + 0x100 * Peek(m, at + 2, 6);
    assert Peek(m, at + 3, 1) == ByteAt(m, at + 3) as int;
    assert Peek(m, at + 2, 2) == ByteAt(m, at + 2) as int + 0x100 * Peek(m, at + 3, 1);
    assert Peek(m, at + 1, 3) == ByteAt(m, at + 1) as int + 0x100 * Peek(m, at + 2, 2);
  }

  /** The low half of a wide sum takes the low half of a term only. */
  lemma LowSum(x: int, low: nat, high: nat)
    ensures (x + (low + 0x1_0000_0000 * high)) % 0x1_0000_0000_0000_0000 % 0x1_0000_0000 == (x + low) % 0x1_0000_0000
  {
    LowHalf(x + (low + 0x1_0000_0000 * high));
    WrapIs(x + (low + 0x1_0000_0000 * high), (x + low) / 0x1_0000_0000 + high, (x + low) % 0x1_0000_0000);
  }

  /** What a patch stores depends on no byte of memory besides those that it stores. */
  lemma {:induction false} ValueSame(w: Arch, base: nat, m: seq<byte>, m': seq<byte>, p: Patch)
    requires |m'| == |m| && forall a :: 0 <= a < |m| && Touches(w, p, a) ==> m'[a] == m[a]
    ensures Value(w, base, m', p) == Value(w, base, m, p)
  {
    hide Address, Peek;
    if p.addend == InPlace {
      PeekSame(m, m', p.site, Width(w, p));
      if w == AMD64 && p.action == PcRelative {
        var x := Address(w, base, p.target) - (base + p.site);
        PeekSplit(m, p.site);
        PeekSplit(m', p.site);
        LowSum(x, Peek(m, p.site, 4), Peek(m, p.site + 4, 4));
        LowSum(x, Peek(m', p.site, 4), Peek(m', p.site + 4, 4));
      }
    }
  }

  /** A patch leaves the value of every patch apart from it as it was. */
  lemma ApplyElsewhere(w: Arch, base: nat, m: seq<byte>, p: Patch, q: Patch)
    requires Beside(w, p, q)
    ensures Value(w, base, ApplyPatch(w, base, m, p), q) == Value(w, base, m, q)
  {
    hide Value, Encode;
    ValueSame(w, base, m, ApplyPatch(w, base, m, p), q);
  }

  /** When no two entries store the same byte, relocating one entry after the other leaves in each site what its entry
      alone would store there, computed from the original image. */
  lemma {:induction false} RunIsSimultaneous(w: Arch, base: nat, m: seq<byte>, ps: seq<Patch>, k: nat)
    requires Apart(w, ps) && Run(w, base, m, ps).0 == 0
    requires forall i :: 0 <= i < |ps| ==> Fits(w, |m|, ps[i])
    requires k < |ps|
    ensures Peek(Run(w, base, m, ps).1, ps[k].site, Width(w, ps[k])) == Value(w, base, m, ps[k])
    decreases |ps|
  {
    var m1, r := ApplyPatch(w, base, m, ps[0]), Run(w, base, m, ps).1;
    if k == 0 {
      ApplyStores(w, base, m, ps[0]);
      WidthSmall(w, ps[0]);
      forall a | ps[0].site <= a < ps[0].site + Width(w, ps[0]) && a < |m|
        ensures r[a] == m1[a]
      {
        RunFrame(w, base, m1, ps[1..], a);
      }
      PeekSame(m1, r, ps[0].site, Width(w, ps[0]));
    } else {
      RunIsSimultaneous(w, base, m1, ps[1..], k - 1);
      ApplyElsewhere(w, base, m, ps[0], ps[k]);
    }
  }

  // ---- Moving the load address ----

  /** How many times the load address is counted in what a patch stores. */
  function Moves(p: Patch): int {
    match p.action
    case Absolute => if p.target.InModule? then 1 else 0
    case Plain => if p.target.InModule? then 1 else 0
    case PcRelative => if p.target.InModule? then 0 else -1
    case BasePlus => 1
    case Skip => 0
  }

  /** Stored words are counted modulo their size. */
  function StoredModulus(w: Arch, p: Patch): nat
    ensures StoredModulus(w, p) > 0
  {
    if p.action == PcRelative then 0x1_0000_0000 else w.Modulus()
  }

  lemma WrapWide(x: int, y: int)
    ensures (x % 0x1_0000_0000_0000_0000 + y) % 0x1_0000_0000_0000_0000 == (x + y) % 0x1_0000_0000_0000_0000
  {
    var M := 0x1_0000_0000_0000_0000;
    WideIs(x + y, x / M + (x % M + y) / M, (x % M + y) % M);
  }

  lemma WideIs(x: int, q: int, r: nat)
    requires r < 0x1_0000_0000_0000_0000 && x == q * 0x1_0000_0000_0000_0000 + r
    ensures x % 0x1_0000_0000_0000_0000 == r
  {
  }

  lemma WrapWords(w: Arch, x: int, y: int)
    ensures (x % w.Modulus() + y) % w.Modulus() == (x + y) % w.Modulus()
  {
    if w == IA32 {
      WrapAdd(x, y);
    } else {
      WrapWide(x, y);
    }
  }

  /** The low half of a wide word. */
  lemma LowHalf(x: int)
    ensures x % 0x1_0000_0000_0000_0000 % 0x1_0000_0000 == x % 0x1_0000_0000
  {
    var q := x / 0x1_0000_0000_0000_0000;
    WrapIs(x, q * 0x1_0000_0000 + x % 0x1_0000_0000_0000_0000 / 0x1_0000_0000,
        x % 0x1_0000_0000_0000_0000 % 0x1_0000_0000);
  }

  /** The base in an address, for sums modulo the word size. */
  lemma AddressMoves(w: Arch, base: nat, t: Target, y: int)
    ensures (Address(w, base, t) + y) % w.Modulus() ==
            ((if t.InModule? then base + t.at else Address(w, 0, t)) + y) % w.Modulus()
  {
    if t.InModule? {
      WrapWords(w, base + t.at, y);
    }
  }

  /** What a patch stores at one load address, from what it stores at another. */
  lemma {:induction false} ValueMoves(w: Arch, b1: nat, b2: nat, m: seq<byte>, p: Patch)
    ensures Value(w, b2, m, p) == (Value(w, b1, m, p) + Moves(p) * (b2 - b1)) % StoredModulus(w, p)
  {
    hide Value, Moves, StoredModulus;
    match p.action {
      case Absolute => AbsoluteMoves(w, b1, b2, m, p);
      case Plain => AbsoluteMoves(w, b1, b2, m, p);
      case PcRelative => RelativeMoves(w, b1, b2, m, p);
      case BasePlus => BaseMoves(w, b1, b2, m, p);
      case Skip => NothingMoves(w, b1, b2, m, p);
    }
  }

  lemma RelativeMoves(w: Arch, b1: nat, b2: nat, m: seq<byte>, p: Patch)
    requires p.action == PcRelative
    ensures Value(w, b2, m, p) == (Value(w, b1, m, p) + Moves(p) * (b2 - b1)) % StoredModulus(w, p)
  {
    hide Address, Peek, AddendOf;
    PcMoves(w, b1, b2, p.target, AddendOf(w, m, p), p.site);
  }

  lemma BaseMoves(w: Arch, b1: nat, b2: nat, m: seq<byte>, p: Patch)
    requires p.action == BasePlus
    ensures Value(w, b2, m, p) == (Value(w, b1, m, p) + Moves(p) * (b2 - b1)) % StoredModulus(w, p)
  {
    hide Address, Peek, AddendOf;
    WrapWords(w, b1 + AddendOf(w, m, p), b2 - b1);
  }

  lemma NothingMoves(w: Arch, b1: nat, b2: nat, m: seq<byte>, p: Patch)
    requires p.action == Skip
    ensures Value(w, b2, m, p) == (Value(w, b1, m, p) + Moves(p) * (b2 - b1)) % StoredModulus(w, p)
  {
  }

  lemma {:induction false} AbsoluteMoves(w: Arch, b1: nat, b2: nat, m: seq<byte>, p: Patch)
    requires p.action == Absolute || p.action == Plain
    ensures Value(w, b2, m, p) == (Value(w, b1, m, p) + Moves(p) * (b2 - b1)) % StoredModulus(w, p)
  {
    hide Address, Peek;
    MovedSum(w, b1, b2, p.target, if p.action == Plain then 0 else AddendOf(w, m, p));
  }

  lemma MovedSum(w: Arch, b1: nat, b2: nat, t: Target, y: int)
    ensures (Address(w, b2, t) + y) % w.Modulus() ==
            ((Address(w, b1, t) + y) % w.Modulus() + (if t.InModule? then b2 - b1 else 0)) % w.Modulus()
  {
    AddressMoves(w, b1, t, y);
    AddressMoves(w, b2, t, y);
    if t.InModule? {
      WrapWords(w, b1 + t.at + y, b2 - b1);
    } else {
      WrapWords(w, Address(w, 0, t) + y, 0);
    }
  }

  lemma {:induction false} PcMoves(w: Arch, b1: nat, b2: nat, t: Target, a: nat, site: nat)
    ensures var k := if t.InModule? then 0 else -1;
      (Address(w, b2, t) + a - (b2 + site)) % w.Modulus() % 0x1_0000_0000 ==
      ((Address(w, b1, t) + a - (b1 + site)) % w.Modulus() % 0x1_0000_0000 + k * (b2 - b1)) % 0x1_0000_0000
  {
    AddressMoves(w, b1, t, a - (b1 + site));
    AddressMoves(w, b2, t, a - (b2 + site));
    var x := (if t.InModule? then t.at else Address(w, 0, t)) + a - site;
    var k := if t.InModule? then 0 else -1;
    var x1, x2 := if t.InModule? then x else x - b1, if t.InModule? then x else x - b2;
    assert x2 == x1 + k * (b2 - b1);
    if w == AMD64 {
      LowHalf(x1);
      LowHalf(x2);
    }
    WrapAdd(x1, k * (b2 - b1));
  }

  /** The base-shift law: relocating one image at two load addresses, with the same kernel, gives
      words that differ by the difference of the addresses, by minus that, or not at all, as
      `Moves` says. */
  lemma {:induction false} BaseShift(w: Arch, m: seq<byte>, ps: seq<Patch>, b1: nat, b2: nat, k: nat)
    requires Apart(w, ps) && Run(w, b1, m, ps).0 == 0
    requires forall i :: 0 <= i < |ps| ==> Fits(w, |m|, ps[i])
    requires k < |ps|
    ensures var n := Width(w, ps[k]);
      && Run(w, b2, m, ps).0 == 0
      && Peek(Run(w, b2, m, ps).1, ps[k].site, n) ==
         (Peek(Run(w, b1, m, ps).1, ps[k].site, n) + Moves(ps[k]) * (b2 - b1)) % StoredModulus(w, ps[k])
  {
    hide Run, Fits, Peek, Value, Width, Moves, StoredModulus;
    RunFailsIff(w, b1, m, ps);
    RunFailsIff(w, b2, m, ps);
    RunIsSimultaneous(w, b1, m, ps, k);
    RunIsSimultaneous(w, b2, m, ps, k);
    ValueMoves(w, b1, b2, m, ps[k]);
  }

  // ---- 32-bit displacements in 64-bit code ----

  /** The processor's reading of a stored 32-bit displacement. */
  function SignExtend(v: nat): int {
    if v < 0x8000_0000 then v else v - 0x1_0000_0000
  }

  lemma Reaches(goal: int, at: int)
    ensures var M := 0x1_0000_0000_0000_0000;
      (at + SignExtend((goal - at) % M % 0x1_0000_0000)) % M == goal % M
      <==> (goal - at) % M < 0x8000_0000 || (goal - at) % M >= M - 0x8000_0000
  {
    var M := 0x1_0000_0000_0000_0000;
    var delta := (goal - at) % M;
    WrapWide(goal - at, at);
    SameResidue(at + SignExtend(delta % 0x1_0000_0000), at + delta, at);
  }

  /** On amd64 a PC-relative patch reaches S + A exactly when the distance fits in 32 signed bits. */
  lemma {:induction false} DisplacementReaches(base: nat, m: seq<byte>, p: Patch)
    requires p.action == PcRelative
    ensures var M := 0x1_0000_0000_0000_0000;
      var goal := Address(AMD64, base, p.target) + AddendOf(AMD64, m, p);
      var at := base + p.site;
      (at + SignExtend(Value(AMD64, base, m, p))) % M == goal % M
      <==> (goal - at) % M < 0x8000_0000 || (goal - at) % M >= M - 0x8000_0000
  {
    hide Address, Peek, SignExtend;
    Reaches(Address(AMD64, base, p.target) + AddendOf(AMD64, m, p), base + p.site);
  }

  /** A call to a goal 2 GB ahead of its site misses it, in every image that holds the site. */
  lemma DisplacementTooFar(base: nat, m: seq<byte>, site: nat)
    requires site + 4 <= |m|
    ensures var goal := base + site + 0x8000_0000;
      var p := Patch(site, PcRelative, Fixed(goal), Explicit(0));
      var (code, r) := Run(AMD64, base, m, [p]);
      && Fits(AMD64, |m|, p) && code == 0
      && (base + site + SignExtend(Peek(r, site, 4))) % 0x1_0000_0000_0000_0000 != goal % 0x1_0000_0000_0000_0000
  {
    hide Peek, SignExtend, Value, ApplyPatch;
    var p := Patch(site, PcRelative, Fixed(base + site + 0x8000_0000), Explicit(0));
    ApplyStores(AMD64, base, m, p);
    DisplacementReaches(base, m, p);
    assert Run(AMD64, base, ApplyPatch(AMD64, base, m, p), []) == (0, ApplyPatch(AMD64, base, m, p));
  }

  /** Adding the same number keeps and reflects equality modulo 2^64. */
  lemma SameResidue(x: int, y: int, at: int)
    ensures x % 0x1_0000_0000_0000_0000 == y % 0x1_0000_0000_0000_0000
       <==> (x - at) % 0x1_0000_0000_0000_0000 == (y - at) % 0x1_0000_0000_0000_0000
  {
    WrapWide(x, -at);
    WrapWide(y, -at);
    WrapWide(x - at, at);
    WrapWide(y - at, at);
  }
}
