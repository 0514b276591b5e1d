/** The file system of src/modules/fat/main.c without its disk: a table of cluster links and the
    bytes of each cluster. Allocation takes the first free cluster, and storing a file appends
    cluster after cluster to a new chain. */
module FatChains {
  import opened Bytes

  const END_OF_CHAIN: int := 0x0FFFFFF8

  /** `fat[c]` is the 28-bit table entry of cluster c, `data[c]` its bytes. Clusters 0 and 1 have
      table entries and no bytes. */
  datatype Fs = Fs(fat: seq<nat>, data: seq<seq<byte>>)

  /** Every data cluster has `cb` bytes. */
  predicate WellFormed(fs: Fs, cb: nat) {
    && 2 <= |fs.fat| < END_OF_CHAIN
    && |fs.data| == |fs.fat|
    && forall c :: 2 <= c < |fs.data| ==> |fs.data[c]| == cb
  }

  lemma DataLength(fs: Fs, cb: nat, c: nat)
    requires WellFormed(fs, cb) && 2 <= c < |fs.fat|
    ensures |fs.data| == |fs.fat| && |fs.data[c]| == cb
  {
  }

  lemma DataLengths(fs: Fs, cb: nat)
    requires WellFormed(fs, cb)
    ensures |fs.fat| == |fs.data| < END_OF_CHAIN
    ensures forall c :: 2 <= c < |fs.data| ==> |fs.data[c]| == cb
  {
  }

  // ---- Chains ----

  /** `ch` lists the clusters visited from its head until an end-of-chain entry. */
  ghost predicate Walk(fat: seq<nat>, ch: seq<nat>) {
    && 0 < |ch|
    && (forall i :: 0 <= i < |ch| ==> ch[i] < |fat|)
    && (forall i :: 0 <= i < |ch| - 1 ==> fat[ch[i]] == ch[i + 1])
    && fat[ch[|ch| - 1]] >= END_OF_CHAIN
  }

  /** A walk over data clusters only. */
  ghost predicate Chain(fat: seq<nat>, ch: seq<nat>) {
    Walk(fat, ch) && forall i :: 0 <= i < |ch| ==> 2 <= ch[i]
  }

  predicate Disjoint(a: seq<nat>, b: seq<nat>) {
    forall x :: x in a ==> x !in b
  }

  ghost predicate Forest(fat: seq<nat>, chains: seq<seq<nat>>) {
    && (forall i :: 0 <= i < |chains| ==> Chain(fat, chains[i]))
    && (forall i, j :: 0 <= i < j < |chains| ==> Disjoint(chains[i], chains[j]))
  }

  /** A walk never comes back to a cluster: chains that end have no cycle. */
  lemma {:induction false} WalkDistinct(fat: seq<nat>, ch: seq<nat>, i: nat, j: nat)
    requires Walk(fat, ch) && |fat| < END_OF_CHAIN
    requires i < j < |ch|
    ensures ch[i] != ch[j]
    decreases |ch| - j
  {
    if ch[i] == ch[j] {
      assert fat[ch[i]] == ch[i + 1];
      if j < |ch| - 1 {
        WalkDistinct(fat, ch, i + 1, j + 1);
      }
    }
  }

  /** The head of a walk determines all of it. */
  lemma {:induction false} WalkUnique(fat: seq<nat>, a: seq<nat>, b: seq<nat>)
    requires Walk(fat, a) && Walk(fat, b) && |fat| < END_OF_CHAIN
    requires a[0] == b[0]
    ensures a == b
    decreases |a|
  {
    assert |a| > 1 ==> fat[a[0]] == a[1];
    assert |b| > 1 ==> fat[b[0]] == b[1];
    if |a| > 1 && |b| > 1 {
      WalkUnique(fat, a[1..], b[1..]);
      assert a == [a[0]] + a[1..] && b == [b[0]] + b[1..];
    }
  }

  lemma ChainNotFree(fat: seq<nat>, ch: seq<nat>, x: nat)
    requires Chain(fat, ch) && x in ch
    ensures x < |fat| && fat[x] != 0
  {
    var i :| 0 <= i < |ch| && ch[i] == x;
    if i < |ch| - 1 {
      assert fat[ch[i]] == ch[i + 1];
    }
  }

  lemma ChainFrame(fat: seq<nat>, fat': seq<nat>, ch: seq<nat>)
    requires Chain(fat, ch) && |fat'| == |fat|
    requires forall x :: x in ch ==> fat'[x] == fat[x]
    ensures Chain(fat', ch)
  {
    assert forall i :: 0 <= i < |ch| ==> ch[i] in ch;
  }

  // ---- Free clusters ----

  /** The free clusters from `i` on, in ascending order. */
  function FreeFrom(fat: seq<nat>, i: nat): (r: seq<nat>)
    ensures r != [] ==> i <= r[0] < |fat| && fat[r[0]] == 0
    decreases |fat| - i
  {
    if i >= |fat| then []
    else if fat[i] == 0 then [i] + FreeFrom(fat, i + 1)
    else FreeFrom(fat, i + 1)
  }

  function FreeList(fat: seq<nat>): (r: seq<nat>) {
    FreeFrom(fat, 2)
  }

  lemma {:induction false} FreeFromCount(fat: seq<nat>, i: nat)
    requires i <= |fat|
    ensures |FreeFrom(fat, i)| <= |fat| - i
    decreases |fat| - i
  {
    if i < |fat| {
      FreeFromCount(fat, i + 1);
    }
  }

  lemma {:induction false} FreeFromMembers(fat: seq<nat>, i: nat, x: nat)
    ensures x in FreeFrom(fat, i) <==> i <= x < |fat| && fat[x] == 0
    decreases |fat| - i
  {
    if i < |fat| {
      FreeFromMembers(fat, i + 1, x);
    }
  }

  lemma {:induction false} FreeFromAscends(fat: seq<nat>, i: nat, p: nat, q: nat)
    requires p < q < |FreeFrom(fat, i)|
    ensures FreeFrom(fat, i)[p] < FreeFrom(fat, i)[q]
    decreases |fat| - i
  {
    if fat[i] != 0 {
      FreeFromAscends(fat, i + 1, p, q);
    } else if p > 0 {
      FreeFromAscends(fat, i + 1, p - 1, q - 1);
    } else {
      FreeFromMembers(fat, i + 1, FreeFrom(fat, i)[q]);
      assert FreeFrom(fat, i)[q] == FreeFrom(fat, i + 1)[q - 1];
    }
  }

  /** What FatFindFreeCluster returns: the lowest free cluster, or 0. */
  function FirstFree(fat: seq<nat>): (c: nat)
    ensures c == 0 || (2 <= c < |fat| && fat[c] == 0)
  {
    if FreeList(fat) == [] then 0 else FreeList(fat)[0]
  }

  /** Marking an entry as used takes exactly that cluster out of the free list. */
  lemma {:induction false} FreeFromUse(fat: seq<nat>, i: nat, c: nat, v: nat)
    requires c < |fat| && v != 0
    ensures fat[c] != 0 || c < i ==> FreeFrom(fat[c := v], i) == FreeFrom(fat, i)
    ensures fat[c] == 0 && FreeFrom(fat, i) != [] && FreeFrom(fat, i)[0] == c ==>
            FreeFrom(fat[c := v], i) == FreeFrom(fat, i)[1..]
    decreases |fat| - i
  {
    if i < |fat| {
      FreeFromUse(fat, i + 1, c, v);
    }
  }

  // ---- Storing a file ----

  /** The table after cluster c was allocated and hung behind `prev` (0: c starts a chain). */
  function Link(fat: seq<nat>, prev: nat, c: nat): (r: seq<nat>)
    requires prev < |fat| && c < |fat|
    ensures |r| == |fat|
  {
    var used := fat[c := END_OF_CHAIN];
    if prev == 0 then used else used[prev := c]
  }

  /** A cluster whose first bytes were overwritten by `piece`. */
  function Overlay(was: seq<byte>, piece: seq<byte>): seq<byte> {
    if |piece| <= |was| then piece + was[|piece|..] else piece
  }

  function StoreCluster(fs: Fs, prev: nat, c: nat, piece: seq<byte>): (r: Fs)
    requires |fs.data| == |fs.fat| && prev < |fs.fat| && c < |fs.fat|
    ensures |r.fat| == |r.data| == |fs.fat|
  {
    Fs(Link(fs.fat, prev, c), fs.data[c := Overlay(fs.data[c], piece)])
  }

  datatype Stored = Stored(fs: Fs, chain: seq<nat>, ok: bool)

  /** The loop of FatWriteData: each round takes a free cluster, hangs it behind `prev` and fills
      it with the next piece of the file. It gives up when no cluster is free. */
  function Store(fs: Fs, pieces: seq<seq<byte>>, prev: nat)
    : (r: Stored)
    requires |fs.data| == |fs.fat| && prev < |fs.fat|
    ensures |r.fs.fat| == |r.fs.data| == |fs.fat|
    decreases |pieces|
  {
    var c := FirstFree(fs.fat);
    if pieces == [] then Stored(fs, [], true)
    else if c == 0 then Stored(fs, [], false)
    else
      var rest := Store(StoreCluster(fs, prev, c, pieces[0]), pieces[1..], c);
      Stored(rest.fs, [c] + rest.chain, rest.ok)
  }

  lemma LinkFree(fat: seq<nat>, prev: nat, c: nat)
    requires prev < |fat| && FreeList(fat) != [] && c == FreeList(fat)[0]
    requires prev != 0 ==> fat[prev] != 0
    ensures c == FirstFree(fat) && 2 <= c < |fat| && fat[c] == 0
    ensures Link(fat, prev, c)[c] == END_OF_CHAIN
    ensures FreeList(Link(fat, prev, c)) == FreeList(fat)[1..]
  {
    FreeFromUse(fat, 2, c, END_OF_CHAIN);
    if prev != 0 {
      FreeFromUse(fat[c := END_OF_CHAIN], 2, prev, c);
    }
  }

  /** Storing takes clusters off the front of the free list, one for each piece, and fails just
      when the list runs out. */
  lemma {:induction false} StoreAllocates(fs: Fs, pieces: seq<seq<byte>>, prev: nat)
    requires |fs.data| == |fs.fat| && prev < |fs.fat|
    requires prev != 0 ==> fs.fat[prev] != 0
    ensures var r := Store(fs, pieces, prev);
      && FreeList(fs.fat) == r.chain + FreeList(r.fs.fat)
      && (if r.ok then |r.chain| == |pieces| else FreeList(r.fs.fat) == [] && |r.chain| < |pieces|)
    decreases |pieces|
  {
    var c := FirstFree(fs.fat);
    if pieces != [] && c != 0 {
      LinkFree(fs.fat, prev, c);
      StoreAllocates(StoreCluster(fs, prev, c, pieces[0]), pieces[1..], c);
    }
  }

  /** Storing succeeds exactly when enough clusters are free. It takes the lowest ones, in order,
      and the others stay free. */
  lemma StoreSucceedsIff(fs: Fs, pieces: seq<seq<byte>>)
    requires |fs.data| == |fs.fat| > 0
    ensures var r, free := Store(fs, pieces, 0), FreeList(fs.fat);
      && (r.ok <==> |pieces| <= |free|)
      && r.chain == free[..Min(|pieces|, |free|)]
      && FreeList(r.fs.fat) == free[|r.chain|..]
  {
    StoreAllocates(fs, pieces, 0);
  }

  /** The clusters a store takes were free. */
  lemma StoreTakesFree(fs: Fs, pieces: seq<seq<byte>>, prev: nat)
    requires |fs.data| == |fs.fat| && prev < |fs.fat|
    requires prev != 0 ==> fs.fat[prev] != 0
    ensures forall x :: x in Store(fs, pieces, prev).chain ==> 2 <= x < |fs.fat| && fs.fat[x] == 0
  {
    StoreAllocates(fs, pieces, prev);
    forall x | x in Store(fs, pieces, prev).chain
      ensures 2 <= x < |fs.fat| && fs.fat[x] == 0
    {
      FreeFromMembers(fs.fat, 2, x);
    }
  }

  /** Storing changes the table only at the clusters it takes and at `prev`, and changes no byte
      of any other cluster. */
  lemma {:induction false} StoreFrame(fs: Fs, pieces: seq<seq<byte>>, prev: nat, x: nat)
    requires |fs.data| == |fs.fat| && prev < |fs.fat|
    requires x < |fs.fat| && x !in Store(fs, pieces, prev).chain
    ensures var r := Store(fs, pieces, prev);
      && (prev == 0 || x != prev ==> r.fs.fat[x] == fs.fat[x])
      && r.fs.data[x] == fs.data[x]
    decreases |pieces|
  {
    var c := FirstFree(fs.fat);
    if pieces != [] && c != 0 {
      StoreFrame(StoreCluster(fs, prev, c, pieces[0]), pieces[1..], c, x);
    }
  }

  /** The first cluster taken hangs behind `prev`. */
  lemma StoreHangs(fs: Fs, pieces: seq<seq<byte>>, prev: nat)
    requires |fs.data| == |fs.fat| && prev < |fs.fat|
    requires prev != 0 ==> fs.fat[prev] != 0
    ensures var r := Store(fs, pieces, prev);
      && (r.chain == [] ==> r.fs == fs)
      && (r.chain != [] && prev != 0 ==> r.fs.fat[prev] == r.chain[0])
  {
    var c := FirstFree(fs.fat);
    if pieces != [] && c != 0 && prev != 0 {
      var next := StoreCluster(fs, prev, c, pieces[0]);
      LinkFree(fs.fat, prev, c);
      StoreTakesFree(next, pieces[1..], c);
      StoreFrame(next, pieces[1..], c, prev);
    }
  }

  /** The clusters a store takes form one chain. */
  lemma {:induction false} StoreChain(fs: Fs, pieces: seq<seq<byte>>, prev: nat)
    requires |fs.data| == |fs.fat| && prev < |fs.fat|
    requires prev != 0 ==> fs.fat[prev] != 0
    ensures var r := Store(fs, pieces, prev);
      r.chain != [] ==> Chain(r.fs.fat, r.chain)
    decreases |pieces|
  {
    var c := FirstFree(fs.fat);
    if pieces != [] && c != 0 {
      var next := StoreCluster(fs, prev, c, pieces[0]);
      var rest := Store(next, pieces[1..], c);
      LinkFree(fs.fat, prev, c);
      StoreChain(next, pieces[1..], c);
      StoreHangs(next, pieces[1..], c);
      ChainCons(rest.fs.fat, c, rest.chain);
    }
  }

  lemma ChainCons(fat: seq<nat>, c: nat, rest: seq<nat>)
    requires 2 <= c < |fat|
    requires if rest == [] then fat[c] >= END_OF_CHAIN else Chain(fat, rest) && fat[c] == rest[0]
    ensures Chain(fat, [c] + rest)
  {
    var ch := [c] + rest;
    forall i | 0 <= i < |ch|
      ensures 2 <= ch[i] < |fat| && (i < |ch| - 1 ==> fat[ch[i]] == ch[i + 1])
    {
      if i > 0 {
        assert ch[i] == rest[i - 1];
      }
    }
    if rest != [] {
      assert ch[|ch| - 1] == rest[|rest| - 1];
    }
  }

  // ---- Contents ----

  predicate Within(ch: seq<nat>, n: nat) {
    forall i :: 0 <= i < |ch| ==> ch[i] < n
  }

  /** The bytes of a list of clusters, one after the other. */
  function Content(fs: Fs, ch: seq<nat>): seq<byte>
    requires Within(ch, |fs.data|)
  {
    if ch == [] then [] else fs.data[ch[0]] + Content(fs, ch[1..])
  }

  lemma {:induction false} ContentFrame(fs: Fs, fs': Fs, ch: seq<nat>)
    requires Within(ch, |fs.data|) && |fs'.data| == |fs.data|
    requires forall x :: x in ch ==> fs'.data[x] == fs.data[x]
    ensures Content(fs', ch) == Content(fs, ch)
  {
    if ch != [] {
      ContentFrame(fs, fs', ch[1..]);
    }
  }

  /** After a successful store each cluster of the chain starts with its piece. */
  lemma {:induction false} StoreContent(fs: Fs, pieces: seq<seq<byte>>, prev: nat, i: nat)
    requires |fs.data| == |fs.fat| && prev < |fs.fat|
    requires prev != 0 ==> fs.fat[prev] != 0
    requires i < |Store(fs, pieces, prev).chain|
    ensures var r := Store(fs, pieces, prev);
      i < |pieces| && r.chain[i] < |r.fs.data| && pieces[i] <= r.fs.data[r.chain[i]]
    decreases |pieces|
  {
    var c := FirstFree(fs.fat);
    var next := StoreCluster(fs, prev, c, pieces[0]);
    LinkFree(fs.fat, prev, c);
    if i == 0 {
      StoreTakesFree(next, pieces[1..], c);
      StoreFrame(next, pieces[1..], c, c);
    } else {
      StoreContent(next, pieces[1..], c, i - 1);
    }
  }

  /** Files stored before keep their chains and their bytes, whether or not there was room. */
  lemma StoreKeeps(fs: Fs, pieces: seq<seq<byte>>, ch: seq<nat>)
    requires |fs.data| == |fs.fat| && Chain(fs.fat, ch)
    ensures var r := Store(fs, pieces, 0);
      && Disjoint(ch, r.chain) && Disjoint(r.chain, ch)
      && Chain(r.fs.fat, ch)
      && Content(r.fs, ch) == Content(fs, ch)
  {
    var r := Store(fs, pieces, 0);
    StoreTakesFree(fs, pieces, 0);
    forall x | x in ch
      ensures x !in r.chain && x < |fs.fat| && r.fs.fat[x] == fs.fat[x] && r.fs.data[x] == fs.data[x]
    {
      ChainNotFree(fs.fat, ch, x);
      StoreFrame(fs, pieces, 0, x);
    }
    ChainFrame(fs.fat, r.fs.fat, ch);
    ContentFrame(fs, r.fs, ch);
  }

  /** The chains stay a forest: storing adds one chain disjoint from all the others. */
  lemma StoreForest(fs: Fs, pieces: seq<seq<byte>>, chains: seq<seq<nat>>)
    requires |fs.data| == |fs.fat| > 0 && Forest(fs.fat, chains)
    ensures var r := Store(fs, pieces, 0);
      Forest(r.fs.fat, if r.chain == [] then chains else chains + [r.chain])
  {
    StoreChain(fs, pieces, 0);
    StoreHangs(fs, pieces, 0);
    forall i | 0 <= i < |chains|
      ensures var r := Store(fs, pieces, 0);
        Chain(r.fs.fat, chains[i]) && Disjoint(chains[i], r.chain)
    {
      StoreKeeps(fs, pieces, chains[i]);
    }
  }
}
