/** The nodes of the virtual file system and the sibling lists they form
    (src/kernel/vfs/vnode.c, vnode.h). */
module Vnode {
  import opened Bytes

  /** A node. `name` is Name.Name[0..Name.Length]; the flags that the kernel consults are
      booleans; `data` is DriverData where that points to a byte image. */
  class VNode {
    var name: seq<byte>
    var parent: VNode?
    var firstChild: VNode?
    var next: VNode?
    var previous: VNode?
    var link: VNode?
    var data: array?<byte>
    var isLink: bool
    var isOpen: bool
    var onDisk: bool
    var deleteOnClose: bool

    constructor ()
      ensures parent == null && firstChild == null && next == null && previous == null && link == null
      ensures data == null && !isLink && !isOpen && !onDisk && !deleteOnClose
    {
      name := [];
      parent, firstChild, next, previous, link := null, null, null, null, null;
      data := null;
      isLink, isOpen, onDisk, deleteOnClose := false, false, false, false;
    }
  }

  /** The i-th node of a list, or null past either end. */
  ghost function At(s: seq<VNode>, i: int): VNode? {
    if 0 <= i < |s| then s[i] else null
  }

  ghost function Just(n: VNode?): set<VNode> {
    if n == null then {} else {n}
  }

  ghost function Without(s: seq<VNode>, i: nat): (r: seq<VNode>)
    requires i < |s|
    ensures |r| == |s| - 1 && forall j :: 0 <= j < |r| ==> r[j] == if j < i then s[j] else s[j + 1]
  {
    s[..i] + s[i + 1..]
  }

  lemma WithoutAppend(s: seq<VNode>, x: VNode, i: nat)
    requires i < |s|
    ensures Without(s + [x], i) == Without(s, i) + [x]
  {
  }

  ghost predicate Distinct(s: seq<VNode>) {
    forall i, j :: 0 <= i < j < |s| ==> s[i] != s[j]
  }

  /** Following `next` from `first` visits exactly `s`. */
  ghost predicate Forward(first: VNode?, s: seq<VNode>)
    reads s`next
  {
    && first == At(s, 0)
    && (forall i {:trigger s[i].next} :: 0 <= i < |s| ==> s[i].next == At(s, i + 1))
  }

  ghost predicate Backward(s: seq<VNode>)
    reads s`previous
  {
    forall i {:trigger s[i].previous} :: 0 <= i < |s| ==> s[i].previous == At(s, i - 1)
  }

  /** The children of `p` are the well-formed doubly linked list `s`. */
  ghost predicate Children(p: VNode, s: seq<VNode>)
    reads p`firstChild, s`next, s`previous
  {
    Distinct(s) && Forward(p.firstChild, s) && Backward(s)
  }

  /** A node has one list of children. */
  lemma {:induction false} ForwardUnique(first: VNode?, s: seq<VNode>, t: seq<VNode>)
    requires Forward(first, s) && Forward(first, t)
    ensures s == t
    decreases |s|
  {
    if s != [] && t != [] {
      assert s[0].next == At(s, 1) && t[0].next == At(t, 1);
      forall i | 0 <= i < |s| - 1
        ensures s[1..][i].next == At(s[1..], i + 1)
      {
        assert s[i + 1].next == At(s, i + 2);
      }
      forall i | 0 <= i < |t| - 1
        ensures t[1..][i].next == At(t[1..], i + 1)
      {
        assert t[i + 1].next == At(t, i + 2);
      }
      ForwardUnique(s[0].next, s[1..], t[1..]);
      assert s == [s[0]] + s[1..] && t == [t[0]] + t[1..];
    }
  }

  /** A new child becomes the first one. Its `parent` and `previous` fields are not set. */
  method RegisterChildVNode(parent: VNode, child: VNode, ghost s: seq<VNode>)
    requires Children(parent, s) && child !in s && child.previous == null
    modifies parent`firstChild, child`next, Just(parent.firstChild)`previous
    ensures Children(parent, [child] + s)
  {
    if parent.firstChild != null {
      parent.firstChild.previous := child;
    }
    child.next := parent.firstChild;
    parent.firstChild := child;
  }

  /** What the links of the other nodes must be for the list to go on without the i-th one. */
  lemma WithoutLinked(s: seq<VNode>, i: nat)
    requires i < |s| && Distinct(s)
    requires forall j {:trigger s[j].next} ::
        0 <= j < |s| && j != i ==> s[j].next == if j + 1 == i then At(s, i + 1) else At(s, j + 1)
    requires forall j {:trigger s[j].previous} ::
        0 <= j < |s| && j != i ==> s[j].previous == if j == i + 1 then At(s, i - 1) else At(s, j - 1)
    ensures var t := Without(s, i); Distinct(t) && Backward(t) && Forward(At(t, 0), t)
  {
    var t := Without(s, i);
    forall k | 0 <= k < |t|
      ensures t[k].next == At(t, k + 1) && t[k].previous == At(t, k - 1)
    {
    }
  }

  /** Takes a node out of its sibling list: its neighbours are joined, and `firstChild` of the
      node named by its own `parent` field moves on. */
  method UnregisterVNode(node: VNode)
    requires node.previous != node && node.next != node
    modifies node`next, node`previous, node`parent
    modifies Just(node.previous)`next, Just(node.next)`previous, Just(node.parent)`firstChild
    ensures node.next == null && node.previous == null && node.parent == null
    ensures old(node.previous) != null ==> old(node.previous).next == old(node.next)
    ensures old(node.next) != null ==> old(node.next).previous == old(node.previous)
    ensures old(node.parent) != null ==>
      old(node.parent).firstChild == if old(node.parent.firstChild) == node then old(node.next)
          else old(node.parent.firstChild)
  {
    if node.previous != null {
      node.previous.next := node.next;
    }
    if node.next != null {
      node.next.previous := node.previous;
    }
    if node.parent != null && node.parent.firstChild == node {
      node.parent.firstChild := node.next;
    }
    node.next := null;
    node.previous := null;
    node.parent := null;
  }

  /** A parent's `firstChild` moves on only through the child's own `parent` field, which
      RegisterChildVNode leaves null: unregistering the i-th child leaves the others listed
      exactly if it was not the first one or its `parent` field was set. */
  method UnregisterChild(p: VNode, node: VNode, ghost s: seq<VNode>, ghost i: nat)
    requires Children(p, s) && i < |s| && s[i] == node && (node.parent == null || node.parent == p)
    modifies node`next, node`previous, node`parent
    modifies Just(node.previous)`next, Just(node.next)`previous, p`firstChild
    ensures Children(p, Without(s, i)) <==> i > 0 || old(node.parent) == p
  {
    hide Without;
    assert node.previous == At(s, i - 1) && node.next == At(s, i + 1);
    UnregisterVNode(node);
    WithoutLinked(s, i);
    WithoutFirst(s, i);
  }

  lemma WithoutFirst(s: seq<VNode>, i: nat)
    requires i < |s| && Distinct(s)
    ensures s[i] !in Without(s, i)
    ensures At(Without(s, i), 0) == if i == 0 then At(s, 1) else s[0]
    ensures forall j :: 0 <= j < |s| && j != i ==> s[j] in Without(s, i)
  {
    forall j | 0 <= j < |s| && j != i
      ensures s[j] in Without(s, i)
    {
      assert Without(s, i)[if j < i then j else j - 1] == s[j];
    }
  }
}
