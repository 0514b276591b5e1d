/** Directory searches cluster by cluster, as the driver's loops run them, and the slot numbers
    they stand for. */
module FatSearch {
  import opened Bytes
  import opened FatChains
  import opened FatDirectory
  import opened FatFiles

  /** A cluster and the offset of a slot in it. */
  datatype Spot = At(cluster: nat, off: nat) | Nowhere

  function FreeSpot(fs: Fs, ch: seq<nat>): (r: Spot)
    requires Within(ch, |fs.data|)
    decreases |ch|
  {
    if ch == [] then Nowhere
    else
      var r := FindFree(fs.data[ch[0]], 0);
      if r.Hit? then At(ch[0], SLOT * r.index) else FreeSpot(fs, ch[1..])
  }

  function NameSpot(fs: Fs, ch: seq<nat>, name: seq<byte>, ext: seq<byte>): (r: Spot)
    requires Within(ch, |fs.data|) && |name| == 8 && |ext| == 3
    decreases |ch|
  {
    if ch == [] then Nowhere
    else
      match Find(fs.data[ch[0]], name, ext, 0)
      case Hit(j) => At(ch[0], SLOT * j)
      case Stopped => Nowhere
      case Missed => NameSpot(fs, ch[1..], name, ext)
  }

  predicate WholeSlots(fs: Fs, ch: seq<nat>)
    requires Within(ch, |fs.data|)
  {
    forall i :: 0 <= i < |ch| ==> |fs.data[ch[i]]| % SLOT == 0
  }

  function SpotOf(fs: Fs, ch: seq<nat>, r: Search): Spot
    requires Within(ch, |fs.data|) && (r.Hit? ==> SLOT * r.index < |Content(fs, ch)|)
  {
    match r
    case Hit(f) => At(Place(fs, ch, SLOT * f).0, Place(fs, ch, SLOT * f).1)
    case _ => Nowhere
  }

  /** The first free slot of the whole directory is the first one found cluster by cluster. */
  lemma {:induction false} FreeSpotIsFirst(fs: Fs, ch: seq<nat>)
    requires Within(ch, |fs.data|) && WholeSlots(fs, ch)
    ensures FreeSpot(fs, ch) == SpotOf(fs, ch, FindFree(Content(fs, ch), 0))
    decreases |ch|
  {
    if ch != [] {
      var head, tail := fs.data[ch[0]], Content(fs, ch[1..]);
      FreeSpotIsFirst(fs, ch[1..]);
      FindFreeConcat(head, tail, 0);
    }
  }

  /** Likewise for a name. */
  lemma {:induction false} NameSpotIsFirst(fs: Fs, ch: seq<nat>, name: seq<byte>, ext: seq<byte>)
    requires Within(ch, |fs.data|) && WholeSlots(fs, ch) && |name| == 8 && |ext| == 3
    ensures NameSpot(fs, ch, name, ext) == SpotOf(fs, ch, Find(Content(fs, ch), name, ext, 0))
    decreases |ch|
  {
    if ch != [] {
      var head, tail := fs.data[ch[0]], Content(fs, ch[1..]);
      NameSpotIsFirst(fs, ch[1..], name, ext);
      FindConcat(head, tail, name, ext, 0);
    }
  }

  /** The slot of the whole directory at a place is the slot of that cluster. */
  lemma {:induction false} PlaceSlot(fs: Fs, ch: seq<nat>, j: nat)
    requires Within(ch, |fs.data|) && WholeSlots(fs, ch) && SLOT * j + SLOT <= |Content(fs, ch)|
    ensures var (c, off) := Place(fs, ch, SLOT * j);
      off % SLOT == 0 && off + SLOT <= |fs.data[c]| && fs.data[c][off..off + SLOT] == Slot(Content(fs, ch), j)
    decreases |ch|
  {
    var head, tail := fs.data[ch[0]], Content(fs, ch[1..]);
    SlotConcat(head, tail, j);
    if SLOT * j >= |head| {
      PlaceSlot(fs, ch[1..], j - |head| / SLOT);
    }
  }

  // ---- Reading a chain ----

  lemma TakeAppend(a: seq<byte>, b: seq<byte>, size: nat)
    ensures Take(a + b, size) == if size <= |a| then a[..size] else a + Take(b, size - |a|)
  {
    if size <= |a| {
      assert (a + b)[..size] == a[..size];
    } else if size <= |a| + |b| {
      assert (a + b)[..size] == a + b[..size - |a|];
    } else {
      assert Take(a + b, size) == a + Take(b, size - |a|);
    }
  }
}
