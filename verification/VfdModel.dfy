/** Open files as values (src/kernel/vfs/vfd.c): each process has a list of descriptors, and one
    counter numbers the descriptors of all of them. */
module VfdModel {
  import opened Bytes

  datatype Descriptor<N> = Descriptor(index: dword, node: N)

  /** `lists` gives the descriptors of each live process in list order, `flagged` the nodes whose
      VFS_OPENED flag is set, `counter` the static counter of CreateEntry. */
  datatype State<P, N> = State(lists: map<P, seq<Descriptor<N>>>, flagged: set<N>, counter: dword)

  datatype Event<P, N> = Spawn(p: P) | Open(p: P, n: N) | Close(p: P, index: dword) | Exit(p: P)

  datatype Panic = DoubleOpen | NotFound

  datatype Outcome<P, N> = Done(s: State<P, N>) | Panicked(why: Panic)

  /** The position of the first descriptor with this index, or the length of the list. */
  function Position<N>(list: seq<Descriptor<N>>, index: dword): (i: nat)
    ensures i <= |list| && (i < |list| ==> list[i].index == index)
    ensures forall j :: 0 <= j < i ==> list[j].index != index
  {
    if list == [] || list[0].index == index then 0 else 1 + Position(list[1..], index)
  }

  lemma PositionIs<N>(list: seq<Descriptor<N>>, i: nat)
    requires i < |list| && forall j :: 0 <= j < i ==> list[j].index != list[i].index
    ensures Position(list, list[i].index) == i
  {
  }

  function Drop<T>(s: seq<T>, i: nat): (r: seq<T>)
    requires i < |s|
    ensures |r| == |s| - 1 && forall j :: 0 <= j < |r| ==> r[j] == s[if j < i then j else j + 1]
  {
    s[..i] + s[i + 1..]
  }

  function Nodes<N(==)>(list: seq<Descriptor<N>>): (r: set<N>)
    ensures forall i :: 0 <= i < |list| ==> list[i].node in r
    ensures forall n :: n in r ==> exists i :: 0 <= i < |list| && list[i].node == n
  {
    set i | 0 <= i < |list| :: list[i].node
  }

  predicate Enabled<P, N>(s: State<P, N>, e: Event<P, N>) {
    if e.Spawn? then e.p !in s.lists else e.p in s.lists
  }

  function Step<P, N>(s: State<P, N>, e: Event<P, N>): Outcome<P, N>
    requires Enabled(s, e)
  {
    match e
    case Spawn(p) => Done(s.(lists := s.lists[p := []]))
    case Open(p, n) =>
      if n in s.flagged then Panicked(DoubleOpen)
      else Done(State(s.lists[p := s.lists[p] + [Descriptor(s.counter, n)]], s.flagged + {n}, Wrap(s.counter + 1)))
    case Close(p, index) =>
      var i := Position(s.lists[p], index);
      if i == |s.lists[p]| then Panicked(NotFound)
      else Done(State(s.lists[p := Drop(s.lists[p], i)], s.flagged - {s.lists[p][i].node}, s.counter))
    case Exit(p) => Done(State(s.lists - {p}, s.flagged - Nodes(s.lists[p]), s.counter))
  }

  // ---- The invariant ----

  /** Descriptor numbers are below the counter and increase along the list; no node is referenced
      twice, and every referenced node is flagged. */
  ghost predicate Tidy<N>(list: seq<Descriptor<N>>, counter: dword, flagged: set<N>) {
    && (forall i :: 0 <= i < |list| ==> list[i].index < counter && list[i].node in flagged)
    && (forall i, j :: 0 <= i < j < |list| ==> list[i].index < list[j].index && list[i].node != list[j].node)
  }

  /** Two lists share neither a number nor a node. */
  ghost predicate Apart<N>(a: seq<Descriptor<N>>, b: seq<Descriptor<N>>) {
    forall i, j :: 0 <= i < |a| && 0 <= j < |b| ==> a[i].index != b[j].index && a[i].node != b[j].node
  }

  ghost predicate Held<P, N>(s: State<P, N>, n: N) {
    exists p :: p in s.lists && n in Nodes(s.lists[p])
  }

  /** A node is flagged exactly when one descriptor, in the list of one process, references it. */
  ghost predicate Ok<P, N>(s: State<P, N>) {
    && (forall p :: p in s.lists ==> Tidy(s.lists[p], s.counter, s.flagged))
    && (forall p, q :: p in s.lists && q in s.lists && p != q ==> Apart(s.lists[p], s.lists[q]))
    && (forall n :: n in s.flagged ==> Held(s, n))
  }

  lemma AppendTidy<N>(list: seq<Descriptor<N>>, counter: dword, flagged: set<N>, n: N)
    requires Tidy(list, counter, flagged) && n !in flagged && counter + 1 < WORD
    ensures Tidy(list + [Descriptor(counter, n)], counter + 1, flagged + {n})
  {
  }

  lemma AppendApart<N>(a: seq<Descriptor<N>>, b: seq<Descriptor<N>>, counter: dword, flagged: set<N>, n: N)
    requires Apart(a, b) && Tidy(b, counter, flagged) && n !in flagged
    ensures Apart(a + [Descriptor(counter, n)], b) && Apart(b, a + [Descriptor(counter, n)])
  {
  }

  lemma DropTidy<N>(list: seq<Descriptor<N>>, counter: dword, flagged: set<N>, i: nat)
    requires Tidy(list, counter, flagged) && i < |list|
    ensures Tidy(Drop(list, i), counter, flagged - {list[i].node})
    ensures Nodes(Drop(list, i)) == Nodes(list) - {list[i].node}
  {
    var rest := Drop(list, i);
    forall j | 0 <= j < |list| && j != i
      ensures list[j].node in Nodes(rest)
    {
      assert rest[if j < i then j else j - 1] == list[j];
    }
  }

  /** One step keeps the invariant, unless the counter wraps. */
  lemma {:induction false} StepOk<P, N>(s: State<P, N>, e: Event<P, N>)
    requires Ok(s) && Enabled(s, e) && Step(s, e).Done? && (e.Open? ==> s.counter + 1 < WORD)
    ensures Ok(Step(s, e).s)
  {
    match e {
      case Spawn(p) => SpawnOk(s, p);
      case Open(p, n) => OpenOk(s, p, n);
      case Close(p, index) => CloseOk(s, p, index);
      case Exit(p) => ExitOk(s, p);
    }
  }

  lemma {:induction false} SpawnOk<P, N>(s: State<P, N>, p: P)
    requires Ok(s) && p !in s.lists
    ensures Ok(Step(s, Spawn(p)).s)
  {
    var t := Step(s, Event<P, N>.Spawn(p)).s;
    forall n | n in t.flagged
      ensures Held(t, n)
    {
      var q :| q in s.lists && n in Nodes(s.lists[q]);
      assert t.lists[q] == s.lists[q];
    }
  }

  lemma {:induction false} OpenOk<P, N>(s: State<P, N>, p: P, n: N)
    requires Ok(s) && p in s.lists && n !in s.flagged && s.counter + 1 < WORD
    ensures Ok(Step(s, Open(p, n)).s)
  {
    hide Tidy, Apart, Nodes;
    var t := Step(s, Open(p, n)).s;
    AppendTidy(s.lists[p], s.counter, s.flagged, n);
    forall q | q in t.lists && q != p
      ensures Tidy(t.lists[q], t.counter, t.flagged) && Apart(t.lists[q], t.lists[p]) && Apart(t.lists[p], t.lists[q])
    {
      AppendApart(s.lists[p], s.lists[q], s.counter, s.flagged, n);
      TidyNodes(s.lists[q], s.counter, s.flagged);
      Weaken(s.lists[q], s.counter, s.flagged, t.counter, t.flagged);
    }
    forall m | m in t.flagged
      ensures Held(t, m)
    {
      if m == n {
        assert t.lists[p][|s.lists[p]|].node == n;
      } else {
        var q :| q in s.lists && m in Nodes(s.lists[q]);
        var i :| 0 <= i < |s.lists[q]| && s.lists[q][i].node == m;
        assert t.lists[q][i].node == m;
      }
    }
  }

  lemma Weaken<N>(list: seq<Descriptor<N>>, counter: dword, flagged: set<N>, more: dword, wider: set<N>)
    requires Tidy(list, counter, flagged) && counter <= more
    requires Nodes(list) <= wider
    ensures Tidy(list, more, wider)
  {
  }

  lemma ApartNodes<N>(a: seq<Descriptor<N>>, b: seq<Descriptor<N>>)
    requires Apart(a, b)
    ensures Nodes(a) !! Nodes(b)
  {
  }

  lemma TidyNodes<N>(list: seq<Descriptor<N>>, counter: dword, flagged: set<N>)
    requires Tidy(list, counter, flagged)
    ensures Nodes(list) <= flagged
  {
  }

  lemma DropApart<N>(a: seq<Descriptor<N>>, b: seq<Descriptor<N>>, i: nat)
    requires Apart(a, b) && i < |a|
    ensures Apart(Drop(a, i), b) && Apart(b, Drop(a, i))
  {
  }

  lemma {:induction false} CloseOk<P, N>(s: State<P, N>, p: P, index: dword)
    requires Ok(s) && p in s.lists && Position(s.lists[p], index) < |s.lists[p]|
    ensures Ok(Step(s, Close(p, index)).s)
  {
    hide Tidy, Apart, Nodes, Drop;
    var i, t := Position(s.lists[p], index), Step(s, Event<P, N>.Close(p, index)).s;
    DropTidy(s.lists[p], s.counter, s.flagged, i);
    forall q | q in t.lists && q != p
      ensures Tidy(t.lists[q], t.counter, t.flagged) && Apart(t.lists[q], t.lists[p]) && Apart(t.lists[p], t.lists[q])
    {
      DropApart(s.lists[p], s.lists[q], i);
      ApartNodes(s.lists[p], s.lists[q]);
      TidyNodes(s.lists[q], s.counter, s.flagged);
      Weaken(s.lists[q], s.counter, s.flagged, t.counter, t.flagged);
    }
    forall m | m in t.flagged
      ensures Held(t, m)
    {
      var q :| q in s.lists && m in Nodes(s.lists[q]);
      assert m in Nodes(t.lists[q]);
    }
  }

  lemma {:induction false} ExitOk<P, N>(s: State<P, N>, p: P)
    requires Ok(s) && p in s.lists
    ensures Ok(Step(s, Exit(p)).s)
  {
    hide Tidy, Apart, Nodes;
    var t := Step(s, Event<P, N>.Exit(p)).s;
    forall q | q in t.lists
      ensures Tidy(t.lists[q], t.counter, t.flagged)
    {
      ApartNodes(s.lists[p], s.lists[q]);
      TidyNodes(s.lists[q], s.counter, s.flagged);
      Weaken(s.lists[q], s.counter, s.flagged, t.counter, t.flagged);
    }
    forall m | m in t.flagged
      ensures Held(t, m)
    {
      var q :| q in s.lists && m in Nodes(s.lists[q]);
      assert q in t.lists && t.lists[q] == s.lists[q];
    }
  }

  // ---- Runs ----

  function Opens<P, N>(es: seq<Event<P, N>>): nat {
    if es == [] then 0 else (if es[0].Open? then 1 else 0) + Opens(es[1..])
  }

  /** A run: every event is enabled and none panics. */
  ghost predicate Runs<P, N>(s: State<P, N>, es: seq<Event<P, N>>)
    decreases |es|
  {
    es == [] || (Enabled(s, es[0]) && Step(s, es[0]).Done? && Runs(Step(s, es[0]).s, es[1..]))
  }

  ghost function Run<P, N>(s: State<P, N>, es: seq<Event<P, N>>): State<P, N>
    requires Runs(s, es)
    decreases |es|
  {
    if es == [] then s else Run(Step(s, es[0]).s, es[1..])
  }

  /** Over every run of fewer than 2^32 opens the invariant holds. */
  lemma {:induction false} RunOk<P, N>(s: State<P, N>, es: seq<Event<P, N>>)
    requires Ok(s) && Runs(s, es) && s.counter + Opens(es) < WORD
    ensures Ok(Run(s, es)) && Run(s, es).counter == s.counter + Opens(es)
    decreases |es|
  {
    hide Ok;
    if es != [] {
      StepOk(s, es[0]);
      RunOk(Step(s, es[0]).s, es[1..]);
    }
  }

  /** Descriptor numbers are unlike each other, wherever the counter is. */
  ghost predicate Unique<P, N>(s: State<P, N>) {
    && (forall p :: p in s.lists ==> Unlike(s.lists[p]))
    && (forall p, q :: p in s.lists && q in s.lists && p != q ==> UnlikeIn(s.lists[p], s.lists[q]))
  }

  ghost predicate Unlike<N>(a: seq<Descriptor<N>>) {
    forall i, j :: 0 <= i < j < |a| ==> a[i].index != a[j].index
  }

  ghost predicate UnlikeIn<N>(a: seq<Descriptor<N>>, b: seq<Descriptor<N>>) {
    forall i, j :: 0 <= i < |a| && 0 <= j < |b| ==> a[i].index != b[j].index
  }

  /** Once the counter has wrapped around, an open keeps the numbers unique exactly if none of the
      live descriptors has the number it gives out. */
  lemma {:induction false} OpenUniqueIff<P, N>(s: State<P, N>, p: P, n: N)
    requires Unique(s) && p in s.lists && n !in s.flagged
    ensures Unique(Step(s, Open(p, n)).s) <==> Absent(s, s.counter)
  {
    var t := Step(s, Open(p, n)).s;
    var last := |s.lists[p]|;
    assert t.lists[p][last].index == s.counter;
    if Unique(t) {
      forall q, i | q in s.lists && 0 <= i < |s.lists[q]|
        ensures s.lists[q][i].index != s.counter
      {
        assert t.lists[q][i] == s.lists[q][i];
        if q != p {
          assert UnlikeIn(t.lists[q], t.lists[p]);
        } else {
          assert Unlike(t.lists[p]);
        }
      }
    }
  }

  /** open panics exactly if some process has the node open. */
  lemma {:induction false} OpenPanicsIff<P, N>(s: State<P, N>, p: P, n: N)
    requires Ok(s) && p in s.lists
    ensures Step(s, Open(p, n)) == Panicked(DoubleOpen) <==> Held(s, n)
  {
    if Held(s, n) {
      var q :| q in s.lists && n in Nodes(s.lists[q]);
      TidyNodes(s.lists[q], s.counter, s.flagged);
    }
  }

  /** A process can close only its own descriptors. */
  lemma {:induction false} ClosesOwnOnly<P, N>(s: State<P, N>, p: P, q: P, i: nat)
    requires Ok(s) && p in s.lists && q in s.lists && i < |s.lists[q]|
    ensures Step(s, Close(p, s.lists[q][i].index)).Done? <==> p == q
  {
    if p != q {
      assert Apart(s.lists[p], s.lists[q]);
    }
  }

  /** Closing what was just opened gives back every list and every flag. */
  lemma {:induction false} CloseUndoesOpen<P, N>(s: State<P, N>, p: P, n: N)
    requires Ok(s) && p in s.lists && n !in s.flagged
    ensures var t := Step(Step(s, Open(p, n)).s, Close(p, s.counter));
      t.Done? && t.s.lists == s.lists && t.s.flagged == s.flagged
  {
    hide Position, Drop, Tidy;
    LastDropped(s.lists[p], s.counter, s.flagged, n);
    assert s.lists[p := s.lists[p]] == s.lists;
  }

  lemma LastDropped<N>(list: seq<Descriptor<N>>, counter: dword, flagged: set<N>, n: N)
    requires Tidy(list, counter, flagged)
    ensures var more := list + [Descriptor(counter, n)];
      Position(more, counter) == |list| && Drop(more, |list|) == list
  {
    PositionIs(list + [Descriptor(counter, n)], |list|);
  }

  /** Exit releases every node of the process and none of another. */
  lemma {:induction false} ExitReleases<P, N>(s: State<P, N>, p: P, n: N)
    requires Ok(s) && p in s.lists && n in s.flagged
    ensures n in Step(s, Exit(p)).s.flagged <==> exists q :: q in s.lists && q != p && n in Nodes(s.lists[q])
  {
    assert Held(s, n);
    forall q | q in s.lists && q != p
      ensures Nodes(s.lists[p]) !! Nodes(s.lists[q])
    {
      ApartNodes(s.lists[p], s.lists[q]);
    }
  }

  /** SchedulerExit's loop, which closes the first descriptor until none is left, has the effect
      of releasing them all at once. */
  ghost function CloseAll<P, N>(s: State<P, N>, p: P): Outcome<P, N>
    requires p in s.lists
    decreases |s.lists[p]|
  {
    if s.lists[p] == [] then Done(s) else CloseAll(Step(s, Close(p, s.lists[p][0].index)).s, p)
  }

  lemma {:induction false} CloseAllIs<P, N>(s: State<P, N>, p: P)
    requires p in s.lists
    ensures CloseAll(s, p) == Done(State(s.lists[p := []], s.flagged - Nodes(s.lists[p]), s.counter))
    decreases |s.lists[p]|
  {
    hide Position, Drop, Nodes;
    var list := s.lists[p];
    if list == [] {
      assert s.lists[p := []] == s.lists;
    } else {
      FirstDropped(list);
      var t := Step(s, Event<P, N>.Close(p, list[0].index)).s;
      CloseAllIs(t, p);
      assert t.lists[p := []] == s.lists[p := []];
    }
  }

  lemma {:induction false} ExitIs<P, N>(s: State<P, N>, t: State<P, N>, p: P)
    requires p in s.lists && p in t.lists && t.lists[p] == [] && CloseAll(s, p) == CloseAll(t, p)
    ensures Step(s, Exit(p)) == Done(t.(lists := t.lists - {p}))
  {
    CloseAllIs(s, p);
    assert s.lists[p := []] - {p} == s.lists - {p};
  }

  lemma FirstDropped<N>(list: seq<Descriptor<N>>)
    requires list != []
    ensures Position(list, list[0].index) == 0 && Drop(list, 0) == list[1..]
    ensures Nodes(list) == {list[0].node} + Nodes(list[1..])
  {
    var rest := list[1..];
    forall n | n in Nodes(list)
      ensures n == list[0].node || n in Nodes(rest)
    {
      var i :| 0 <= i < |list| && list[i].node == n;
      if i > 0 {
        assert rest[i - 1].node == n;
      }
    }
    forall n | n in Nodes(rest)
      ensures n in Nodes(list)
    {
      var i :| 0 <= i < |rest| && rest[i].node == n;
      assert list[i + 1].node == n;
    }
  }

  ghost predicate Absent<P, N>(s: State<P, N>, index: dword) {
    forall p, i :: p in s.lists && 0 <= i < |s.lists[p]| ==> s.lists[p][i].index != index
  }

  /** A descriptor number that was given out and is closed is never given out again, over every
      run of fewer than 2^32 opens. */
  lemma {:induction false} ClosedStaysClosed<P, N>(s: State<P, N>, es: seq<Event<P, N>>, index: dword)
    requires Runs(s, es) && s.counter + Opens(es) < WORD && index < s.counter && Absent(s, index)
    ensures Absent(Run(s, es), index)
    decreases |es|
  {
    if es != [] {
      ClosedStaysClosed(Step(s, es[0]).s, es[1..], index);
    }
  }
}
