/** The descriptor lists on the heap (src/kernel/vfs/vfd.c). */
module Vfd {
  import opened Bytes
  import opened VfdModel
  import opened Vnode

  /** One _FileDescriptor. The head of each list lies in the Task record itself: it has no reference and
      index -1. */
  class FileEntry {
    var reference: VNode?
    var next: FileEntry?
    var fileIndex: dword

    constructor (reference: VNode?, fileIndex: dword)
      ensures this.reference == reference && this.fileIndex == fileIndex && next == null
    {
      this.reference, this.fileIndex, next := reference, fileIndex, null;
    }
  }

  datatype OpenResult = Opened(fd: dword) | NoSuchFile | AlreadyOpen

  ghost function After(s: seq<FileEntry>, i: int): FileEntry? {
    if 0 <= i < |s| then s[i] else null
  }

  ghost predicate NoRepeat(s: seq<FileEntry>) {
    forall i, j :: 0 <= i < j < |s| ==> s[i] != s[j]
  }

  /** A list from its head on. */
  ghost predicate Chained(s: seq<FileEntry>)
    reads s`next
  {
    && NoRepeat(s)
    && (forall i {:trigger s[i].next} :: 0 <= i < |s| ==> s[i].next == After(s, i + 1))
  }

  ghost predicate Referring(s: seq<FileEntry>, nodes: set<VNode>)
    reads s`reference
  {
    forall i :: 0 <= i < |s| ==> s[i].reference != null && s[i].reference in nodes
  }

  ghost function Entries(s: seq<FileEntry>, nodes: set<VNode>): (r: seq<Descriptor<VNode>>)
    requires Referring(s, nodes)
    reads s`reference, s`fileIndex
    ensures |r| == |s| && forall i :: 0 <= i < |r| ==> r[i].index == s[i].fileIndex && r[i].node == s[i].reference
  {
    if s == [] then [] else
      var n: VNode := s[0].reference;
      [Descriptor(s[0].fileIndex, n)] + Entries(s[1..], nodes)
  }

  ghost predicate Within(s: seq<FileEntry>, all: set<FileEntry>) {
    forall e :: e in s ==> e in all
  }

  ghost predicate Separate(a: seq<FileEntry>, b: seq<FileEntry>) {
    forall e :: e in a ==> e !in b
  }

  lemma DropSeparate(s: seq<FileEntry>, i: nat, all: set<FileEntry>)
    requires i < |s|
    ensures Within(s, all) ==> Within(Drop(s, i), all)
    ensures forall b :: Separate(s, b) || Separate(b, s) ==> Separate(Drop(s, i), b) && Separate(b, Drop(s, i))
  {
    forall e | e in Drop(s, i)
      ensures e in s
    {
      var j :| 0 <= j < |Drop(s, i)| && Drop(s, i)[j] == e;
      assert s[if j < i then j else j + 1] == e;
    }
  }

  /** What the links must be for the list to go on without the i-th entry. */
  lemma DropChained(s: seq<FileEntry>, i: nat)
    requires 0 < i < |s| && NoRepeat(s)
    requires forall j {:trigger s[j].next} ::
        0 <= j < |s| && j != i ==> s[j].next == After(s, if j + 1 == i then i + 1 else j + 1)
    ensures Chained(Drop(s, i))
  {
    var t := Drop(s, i);
    forall j | 0 <= j < |t|
      ensures t[j].next == After(t, j + 1)
    {
      assert t[j] == s[if j < i then j else j + 1];
    }
  }

  lemma DropEntries(s: seq<FileEntry>, nodes: set<VNode>, i: nat)
    requires 0 < i < |s| && Referring(s[1..], nodes)
    ensures Drop(s, i)[0] == s[0] && Referring(Drop(s, i)[1..], nodes)
    ensures Entries(Drop(s, i)[1..], nodes) == Drop(Entries(s[1..], nodes), i - 1)
  {
    var t := Drop(s, i);
    assert forall j :: 0 <= j < |t| - 1 ==> t[1..][j] == s[1..][if j < i - 1 then j else j + 1];
  }

  lemma AppendSeparate(s: seq<FileEntry>, e: FileEntry, all: set<FileEntry>)
    requires Within(s, all) && e !in all
    ensures e !in s && Within(s + [e], all + {e})
    ensures forall b :: Within(b, all) ==> Within(b, all + {e})
    ensures forall b :: Within(b, all) && Separate(s, b) ==> Separate(s + [e], b)
    ensures forall b :: Within(b, all) && Separate(b, s) ==> Separate(b, s + [e])
  {
  }

  lemma AppendChained(s: seq<FileEntry>, e: FileEntry, nodes: set<VNode>)
    requires s != [] && NoRepeat(s) && e !in s && Referring(s[1..], nodes)
    requires forall j {:trigger s[j].next} :: 0 <= j < |s| ==> s[j].next == After(s + [e], j + 1)
    requires e.next == null && e.reference != null && e.reference in nodes
    ensures Chained(s + [e]) && Referring((s + [e])[1..], nodes)
    ensures var n: VNode := e.reference;
      Entries((s + [e])[1..], nodes) == Entries(s[1..], nodes) + [Descriptor(e.fileIndex, n)]
  {
    assert (s + [e])[1..] == s[1..] + [e];
  }

  /** The static counter of CreateEntry and the list of the running process. `lists` holds every
      process's list under its head, `entries` all their entries,
      `nodes` the nodes that can be opened. */
  class Table {
    var current: dword
    var files: FileEntry?
    ghost var lists: map<FileEntry, seq<FileEntry>>
    ghost var entries: set<FileEntry>
    ghost const nodes: set<VNode>

    constructor (nodes: set<VNode>)
      ensures Valid() && this.nodes == nodes && lists == map[] && files == null && current == 0
    {
      this.nodes := nodes;
      current, files, lists, entries := 0, null, map[], {};
    }

    ghost predicate Valid(): (v: bool)
      reads this`files, this`lists, this`entries, entries
      ensures v ==> (files != null ==> files in lists) && forall p ::
          p in lists ==> lists[p] != [] && Referring(lists[p][1..], nodes)
    {
      && (files != null ==> files in lists)
      && (forall p :: p in lists ==> Within(lists[p], entries) && Listed(p, lists[p]))
      && (forall p, q :: p in lists && q in lists && p != q ==> Separate(lists[p], lists[q]))
    }

    ghost predicate Listed(p: FileEntry, s: seq<FileEntry>)
      reads s`next, s`reference, s`fileIndex
    {
      && s != [] && s[0] == p && p.reference == null && p.fileIndex == WORD - 1
      && Chained(s) && Referring(s[1..], nodes)
    }

    ghost function Lists(): (r: map<FileEntry, seq<Descriptor<VNode>>>)
      requires Valid()
      reads this`files, this`lists, this`entries, entries
      ensures r.Keys == lists.Keys
      ensures files != null ==> r[files] == Mine()
    {
      map p | p in lists :: Entries(lists[p][1..], nodes)
    }

    ghost function Flagged(): set<VNode>
      reads nodes`isOpen
    {
      set n | n in nodes && n.isOpen
    }

    ghost function Abs(): State<FileEntry, VNode>
      requires Valid()
      reads this, entries, nodes`isOpen
    {
      State(Lists(), Flagged(), current)
    }

    /** The running process's descriptors. */
    ghost function Mine(): seq<Descriptor<VNode>>
      requires Valid() && files != null
      reads this`files, this`lists, this`entries, entries
    {
      Entries(lists[files][1..], nodes)
    }

    /** The entry before the one with this index. */
    method findb(index: dword) returns (r: FileEntry?)
      requires Valid() && files != null
      ensures r == (var i := Position(Mine(), index); if i < |Mine()| then lists[files][i] else null)
    {
      ghost var s, k := lists[files], 0;
      var desc := files;
      while desc.next != null
        invariant 0 <= k < |s| && desc == s[k]
        invariant forall j :: 0 <= j < k ==> Mine()[j].index != index
        decreases |s| - k
      {
        if desc.next.fileIndex == index {
          PositionIs(Mine(), k);
          return desc;
        }
        desc, k := desc.next, k + 1;
      }
      return null;
    }

    /** Unlike findb it looks at the head too, so that it finds index -1: an entry without a
        reference. */
    method find(index: dword) returns (r: FileEntry?)
      requires Valid() && files != null
      ensures index == WORD - 1 ==> r == files && r.reference == null
      ensures index != WORD - 1 ==>
        r == (var i := Position(Mine(), index); if i < |Mine()| then lists[files][i + 1] else null)
    {
      ghost var s, k := lists[files], 0;
      var desc := files;
      while desc != null
        invariant 0 <= k <= |s| && desc == After(s, k)
        invariant forall j :: 0 <= j < k ==> s[j].fileIndex != index
        decreases |s| - k
      {
        if desc.fileIndex == index {
          if k > 0 {
            PositionIs(Mine(), k - 1);
          }
          return desc;
        }
        desc, k := desc.next, k + 1;
      }
      return null;
    }

    /** Takes the entry after `before` out of the running process's list. */
    method Unlink(before: FileEntry, ghost i: nat) returns (target: FileEntry)
      requires Valid() && files != null && i < |Mine()| && before == lists[files][i]
      modifies this`lists, before`next
      ensures Valid() && target == old(lists[files])[i + 1] && target.next == old(target.next)
          && target.reference != null
      ensures target.reference == old(Mine())[i].node && target.reference in nodes
      ensures lists == old(lists)[files := Drop(old(lists[files]), i + 1)]
      ensures Mine() == Drop(old(Mine()), i)
    {
      hide Entries, Drop, Separate, Within, NoRepeat, Referring, Listed;
      ghost var s := lists[files];
      ListedIs(files, s);
      Leaver(i + 1);
      Others(before, i);
      target := before.next;
      before.next := target.next;
      lists := lists[files := Drop(s, i + 1)];
      DropChained(s, i + 1);
      DropEntries(s, nodes, i + 1);
      ListedIs(files, Drop(s, i + 1));
    }

    /** A list without one of its entries stays apart from the others. */
    lemma Leaver(i: nat)
      requires Valid() && files != null && i < |lists[files]|
      ensures var t := Drop(lists[files], i);
        && Within(t, entries)
        && forall q :: q in lists && q != files ==> Separate(t, lists[q]) && Separate(lists[q], t)
    {
      hide Listed;
      DropSeparate(lists[files], i, entries);
    }

    /** An entry is in the list of one process only. */
    lemma Others(e: FileEntry, i: nat)
      requires Valid() && files != null && i < |lists[files]| && e == lists[files][i]
      ensures forall q :: q in lists && q != files ==> e !in lists[q]
      ensures forall j :: 0 <= j < |lists[files]| && j != i ==> lists[files][j] != e
      ensures i < |Mine()| ==> var n := lists[files][i + 1].reference; n != null && n in nodes && n == Mine()[i].node
    {
      if i < |Mine()| {
        assert lists[files][1..][i] == lists[files][i + 1];
      }
    }

    /** The same, as it looks from outside. */
    method Remove(before: FileEntry, ghost i: nat) returns (target: FileEntry)
      requires Valid() && files != null && i < |Mine()| && before == lists[files][i]
      modifies this`lists, before`next
      ensures Valid() && target == old(lists[files])[i + 1] && target.next == old(target.next)
          && target.reference != null
      ensures target.reference == old(Mine())[i].node && target.reference in nodes
      ensures lists == old(lists)[files := Drop(old(lists[files]), i + 1)]
      ensures Lists() == old(Lists())[files := Drop(old(Mine()), i)]
    {
      hide Valid, Entries, Drop;
      target := Unlink(before, i);
      assert Lists() == old(Lists())[files := Drop(old(Mine()), i)];
    }

    lemma IsFlagged(n: VNode)
      requires n in nodes
      ensures n in Flagged() <==> n.isOpen
    {
    }

    method SetFlag(n: VNode, open: bool)
      requires n in nodes
      modifies n`isOpen
      ensures Flagged() == if open then old(Flagged()) + {n} else old(Flagged()) - {n}
    {
      n.isOpen := open;
    }

    /** Finds the entry with this index and takes it out of the list. */
    method TakeOut(fd: dword) returns (target: FileEntry?)
      requires Valid() && files != null
      modifies this`lists, lists[files]`next
      ensures Valid()
      ensures var i := Position(old(Mine()), fd);
        if i == |old(Mine())| then target == null && Lists() == old(Lists()) && lists == old(lists)
        else
          && Lists() == old(Lists())[files := Drop(old(Mine()), i)]
          && lists == old(lists)[files := Drop(old(lists[files]), i + 1)]
          && target == old(lists[files])[i + 1] && target.next == old(lists[files][i + 1].next)
          && target.reference == old(Mine())[i].node && target.reference in nodes
    {
      hide Valid, Drop, Position, Lists, Entries;
      var before := findb(fd);
      if before == null {
        return null;
      }
      target := Remove(before, Position(Mine(), fd));
    }

    /** close: `deleted` is the node when it was marked to be deleted on close. */
    method close(fd: dword) returns (r: bool, deleted: VNode?)
      requires Valid() && files != null
      modifies this`lists, lists[files]`next, nodes`isOpen
      ensures Valid() && files in old(Abs().lists)
      ensures Step(old(Abs()), Close(files, fd)) == if r then Done(Abs()) else Panicked(NotFound)
      ensures !r ==> Abs() == old(Abs())
      ensures r ==> var i := Position(old(Mine()), fd);
        && lists == old(lists)[files := Drop(old(lists[files]), i + 1)]
        && old(lists[files])[i + 1].next == old(lists[files][i + 1].next)
        && deleted == if old(Mine())[i].node.deleteOnClose then old(Mine())[i].node else null
    {
      hide Valid, Drop, Position, Lists, Flagged, Entries, Nodes;
      var target := TakeOut(fd);
      if target == null {
        return false, null;
      }
      SetFlag(target.reference, false);
      return true, if target.reference.deleteOnClose then target.reference else null;
    }

    lemma HeadOf()
      requires Valid() && files != null
      ensures var s := lists[files];
        && |s| == |Mine()| + 1 && s[0] == files && files.next == After(s, 1) && Within(s, entries)
        && (Mine() != [] ==> s[1].fileIndex == Mine()[0].index && s[1].next == After(s, 2))
        && (Mine() != [] ==> Position(Mine(), Mine()[0].index) == 0)
    {
      ghost var s := lists[files];
      if Mine() != [] {
        assert s[1..][0] == s[1] && s[0].next == s[1];
        PositionIs(Mine(), 0);
      }
    }

    /** One round of the descriptor loop of SchedulerExit. It reads the successor of the entry
        that close has freed: kfree leaves the memory as it is. */
    method CloseFirst(desc: FileEntry) returns (next: FileEntry?)
      requires Valid() && files != null && desc == After(lists[files], 1)
      modifies this`lists, entries`next, nodes`isOpen
      ensures Valid() && next == After(lists[files], 1) && |lists[files]| == |old(lists[files])| - 1
      ensures lists.Keys == old(lists.Keys)
      ensures CloseAll(Abs(), files) == CloseAll(old(Abs()), files)
    {
      hide Valid, Drop, Position, Lists, Flagged, Entries, Nodes, Within;
      HeadOf();
      var r, deleted := close(desc.fileIndex);
      next := desc.next;
    }

    /** The descriptor loop of SchedulerExit; afterwards no process runs. */
    method ExitFiles()
      requires Valid() && files != null
      modifies this`files, this`lists, entries`next, nodes`isOpen
      ensures Valid() && files == null && old(files) in old(Abs().lists)
      ensures Step(old(Abs()), Exit(old(files))) == Done(Abs())
    {
      hide Valid, Drop, Position, Lists, Flagged, Entries, Nodes, CloseAll, Mine;
      HeadOf();
      ghost var p, start := files, Abs();
      var desc := files.next;
      while desc != null
        invariant Valid() && desc == After(lists[p], 1)
        invariant CloseAll(Abs(), p) == CloseAll(start, p)
        decreases |lists[p]|
        modifies this`lists, entries`next, nodes`isOpen
      {
        desc := CloseFirst(desc);
      }
      HeadOf();
      ExitIs(start, Abs(), p);
      Forget();
    }

    /** The running process is gone. */
    method Forget()
      requires Valid() && files != null
      modifies this`files, this`lists
      ensures Valid() && files == null && Lists() == old(Lists()) - {old(files)}
    {
      hide Listed, Entries;
      lists := lists - {files};
      files := null;
    }

    lemma ListedIs(p: FileEntry, s: seq<FileEntry>)
      ensures Listed(p, s) <==>
        && s != [] && s[0] == p && p.reference == null && p.fileIndex == WORD - 1
        && Chained(s) && Referring(s[1..], nodes)
    {
    }

    ghost function Last(): FileEntry
      requires Valid() && files != null
      reads this`files, this`lists, this`entries, entries
    {
      var s := lists[files];
      s[|s| - 1]
    }

    /** The walk to the end of the list. */
    method LinkLast(entry: FileEntry)
      requires Valid() && files != null
      modifies {Last()}`next
      ensures old(Last()).next == entry
    {
      if files.next == null {
        files.next := entry;
      } else {
        ghost var s, k := lists[files], 0;
        var desc := files;
        while desc.next != null
          invariant 0 <= k < |s| && desc == s[k]
          decreases |s| - k
          modifies {}
        {
          desc, k := desc.next, k + 1;
        }
        desc.next := entry;
      }
    }

    /** An entry that is not in any list stays apart from the other lists in this one. */
    lemma Newcomer(entry: FileEntry)
      requires Valid() && files != null && entry !in entries
      ensures var s := lists[files];
        && entry !in s && Within(s + [entry], entries + {entry})
        && forall q :: q in lists && q != files ==>
             Within(lists[q], entries + {entry}) && Separate(s + [entry], lists[q]) && Separate(lists[q], s + [entry])
    {
      hide Listed;
      AppendSeparate(lists[files], entry, entries);
    }

    /** Puts a new entry at the end of the running process's list. */
    method Append(entry: FileEntry)
      requires Valid() && files != null && entry !in entries
      requires entry.next == null && entry.reference != null && entry.reference in nodes
      modifies this`lists, this`entries, lists[files]`next
      ensures Valid() && lists == old(lists)[files := old(lists[files]) + [entry]] && entries == old(entries) + {entry}
      ensures var n: VNode := entry.reference; Mine() == old(Mine()) + [Descriptor(entry.fileIndex, n)]
    {
      hide Entries, Separate, Within, NoRepeat, Referring, Listed;
      ghost var s := lists[files];
      ListedIs(files, s);
      Newcomer(entry);
      Others(s[|s| - 1], |s| - 1);
      LinkLast(entry);
      lists, entries := lists[files := s + [entry]], entries + {entry};
      AppendChained(s, entry, nodes);
      ListedIs(files, s + [entry]);
    }

    /** The same, as it looks from outside. */
    method Insert(entry: FileEntry)
      requires Valid() && files != null && entry !in entries
      requires entry.next == null && entry.reference != null && entry.reference in nodes
      modifies this`lists, this`entries, lists[files]`next
      ensures Valid()
      ensures var n: VNode := entry.reference;
        Lists() == old(Lists())[files := old(Mine()) + [Descriptor(entry.fileIndex, n)]]
    {
      hide Valid, Entries;
      Append(entry);
      ghost var n: VNode := entry.reference;
      assert Lists() == old(Lists())[files := old(Mine()) + [Descriptor(entry.fileIndex, n)]];
    }

    method AddEntry(node: VNode) returns (fd: dword)
      requires Valid() && files != null && node in nodes
      modifies this`current, this`lists, this`entries, lists[files]`next
      ensures Valid() && fd == old(current) && current == Wrap(old(current) + 1)
      ensures Lists() == old(Lists())[files := old(Lists())[files] + [Descriptor(old(current), node)]]
    {
      hide Valid, Lists, Mine;
      var entry := new FileEntry(node, current);
      Insert(entry);
      fd := current;
      current := Wrap(current + 1);
    }

    /** A node gets its flag and a descriptor with the next number. */
    method CreateEntry(node: VNode) returns (fd: dword)
      requires Valid() && files != null && node in nodes && !node.isOpen
      modifies this`current, this`lists, this`entries, lists[files]`next, node`isOpen
      ensures Valid() && Step(old(Abs()), Open(files, node)) == Done(Abs()) && fd == old(current)
    {
      hide Valid, Lists, Mine, Flagged, Drop, Position, Nodes;
      IsFlagged(node);
      SetFlag(node, true);
      fd := AddEntry(node);
    }

    /** open, given the node that the path lookup returned. */
    method open(node: VNode?) returns (r: OpenResult)
      requires Valid() && files != null && (node != null ==> node in nodes)
      modifies this`current, this`lists, this`entries, lists[files]`next, nodes`isOpen
      ensures Valid() && files in old(Abs().lists)
      ensures node == null ==> r == NoSuchFile && Abs() == old(Abs())
      ensures node != null ==> Step(old(Abs()), Open(files, node)) == if r.Opened? then Done(Abs())
          else Panicked(DoubleOpen)
      ensures r.Opened? ==> r.fd == old(current)
      ensures r.AlreadyOpen? ==> node != null && Abs() == old(Abs())
    {
      hide Valid, Lists, Mine, Flagged, Drop, Position, Nodes;
      if node == null {
        return NoSuchFile;
      }
      IsFlagged(node);
      if node.isOpen {
        return AlreadyOpen;
      }
      var fd := CreateEntry(node);
      return Opened(fd);
    }

    /** A new task has only the head of a list. */
    method Spawn() returns (head: FileEntry)
      requires Valid()
      modifies this`lists, this`entries
      ensures Valid() && fresh(head) && Step(old(Abs()), Event.Spawn(head)) == Done(Abs())
    {
      hide Valid, Lists, Flagged, Drop, Position, Nodes;
      head := new FileEntry(null, WORD - 1);
      AddHead(head);
    }

    method AddHead(head: FileEntry)
      requires Valid() && head !in entries && head.reference == null && head.fileIndex == WORD - 1 && head.next == null
      modifies this`lists, this`entries
      ensures Valid() && head !in old(lists) && Lists() == old(Lists())[head := []]
    {
      hide Entries, Separate, Within, Listed;
      OnlyHead(head);
      Stranger(head);
      lists, entries := lists[head := [head]], entries + {head};
    }

    lemma Stranger(head: FileEntry)
      requires Valid() && head !in entries
      ensures head !in lists && Within([head], entries + {head})
      ensures forall q :: q in lists ==>
          Within(lists[q], entries + {head}) && Separate([head], lists[q]) && Separate(lists[q], [head])
    {
      hide Listed;
      forall p | p in lists
        ensures head != p && Within(lists[p], entries)
      {
        HeadsWithin(p);
      }
    }

    lemma HeadsWithin(p: FileEntry)
      requires Valid() && p in lists
      ensures p in entries && Within(lists[p], entries)
    {
      assert lists[p][0] in lists[p];
    }

    lemma OnlyHead(head: FileEntry)
      requires head.reference == null && head.fileIndex == WORD - 1 && head.next == null
      ensures Listed(head, [head]) && Entries([head][1..], nodes) == []
    {
    }

    /** Another process runs. */
    method SwitchTo(head: FileEntry)
      requires Valid() && head in lists
      modifies this`files
      ensures Valid() && files == head && Abs() == old(Abs())
    {
      hide Entries, Listed, Separate, Within;
      files := head;
    }
  }
}
