/** Path lookup over the node tree (DefaultRelativeFindFunction in src/kernel/vfs/vnode.c). */
module Path {
  import opened Bytes
  import opened Strings
  import opened Vnode

  const SLASH: byte := 47
  const DOT: seq<byte> := [46]
  const DOTDOT: seq<byte> := [46, 46]
  const PARENT: seq<byte> := [126, 112, 97, 114, 101, 110, 116]
  const SELF: seq<byte> := [126, 115, 101, 108, 102]
  const NEXT: seq<byte> := [126, 110, 101, 120, 116]
  const PREVIOUS: seq<byte> := [126, 112, 114, 101, 118, 105, 111, 117, 115]
  const FIRST: seq<byte> := [126, 102, 105, 114, 115, 116]
  const LAST: seq<byte> := [126, 108, 97, 115, 116]

  /** The longest component; a longer run of characters is cut into several. */
  const MAX: int := 127

  // ---- Components ----

  function ComponentLength(path: seq<byte>, n: nat): (r: nat)
    requires n <= |path|
    ensures n <= r <= |path| && (n <= MAX ==> r <= MAX)
    ensures forall k :: n <= k < r ==> path[k] != SLASH
    ensures r < |path| && r < MAX ==> path[r] == SLASH
    decreases |path| - n
  {
    if n < |path| && path[n] != SLASH && n < MAX then ComponentLength(path, n + 1) else n
  }

  /** The components of a path, slashes dropped. */
  function Components(path: seq<byte>): (r: seq<seq<byte>>)
    ensures forall c :: c in r ==> 0 < |c| <= MAX && SLASH !in c
    decreases |path|
  {
    if path == [] then []
    else if path[0] == SLASH then Components(path[1..])
    else
      var n := ComponentLength(path, 0);
      [path[..n]] + Components(path[n..])
  }

  /** Where the first component ends does not depend on what follows a slash. */
  lemma {:induction false} ComponentOfJoined(p: seq<byte>, q: seq<byte>, n: nat)
    requires n <= |p|
    ensures ComponentLength(p + [SLASH] + q, n) == ComponentLength(p, n)
    decreases |p| - n
  {
    var path := p + [SLASH] + q;
    if n < |p| {
      assert path[n] == p[n];
      if p[n] != SLASH && n < MAX {
        ComponentOfJoined(p, q, n + 1);
      }
    } else {
      assert path[n] == SLASH;
    }
  }

  /** Joining paths with a slash joins their components. */
  lemma {:induction false} ComponentsOfJoined(p: seq<byte>, q: seq<byte>)
    ensures Components(p + [SLASH] + q) == Components(p) + Components(q)
    decreases |p|
  {
    var path := p + [SLASH] + q;
    if p == [] {
      assert path[1..] == q;
    } else if p[0] == SLASH {
      assert path[1..] == p[1..] + [SLASH] + q;
      ComponentsOfJoined(p[1..], q);
    } else {
      ComponentOfJoined(p, q, 0);
      var n := ComponentLength(p, 0);
      assert path[..n] == p[..n] && path[n..] == p[n..] + [SLASH] + q;
      ComponentsOfJoined(p[n..], q);
    }
  }

  // ---- The tree ----

  /** The nodes a lookup can reach, with the children of each as a list. `parent`, `previous` and
      `link` may be anything. */
  datatype World = World(nodes: set<VNode>, kids: map<VNode, seq<VNode>>, root: VNode)

  ghost predicate In(w: World, n: VNode?) {
    n == null || n in w.nodes
  }

  ghost predicate Tree(w: World): (v: bool)
    reads w.nodes
    ensures v ==> w.root in w.nodes
  {
    && w.root in w.nodes && w.nodes <= w.kids.Keys
    && (forall n :: n in w.nodes ==> In(w, n.parent) && In(w, n.next) && In(w, n.previous) && In(w, n.link))
    && (forall n, k :: n in w.nodes && k in w.kids[n] ==> k in w.nodes)
    && (forall n :: n in w.nodes ==> Forward(n.firstChild, w.kids[n]))
  }

  datatype Place = At(node: VNode?) | Lost

  /** The first child with this name; names are compared up to a NUL. */
  ghost predicate Called(n: VNode, c: seq<byte>)
    reads n
  {
    |n.name| == |c| && SameString(n.name, c)
  }

  ghost function Child(s: seq<VNode>, c: seq<byte>): (r: Place)
    reads s
    ensures r.At? ==> r.node in s && Called(r.node, c)
    ensures r.Lost? <==> forall k :: k in s ==> !Called(k, c)
  {
    if s == [] then Lost else if Called(s[0], c) then At(s[0]) else Child(s[1..], c)
  }

  ghost function OrLost(n: VNode?): Place {
    if n == null then Lost else At(n)
  }

  /** One component. On a node whose children are on disk the default ConstructChildren panics. */
  ghost function Move(w: World, n: VNode, c: seq<byte>): (r: Place)
    requires Tree(w) && n in w.nodes
    reads w.nodes
    ensures r.At? ==> In(w, r.node)
  {
    if c == DOTDOT || c == PARENT then At(if n == w.root then n else n.parent)
    else if c == DOT || c == SELF then At(n)
    else if c == NEXT then OrLost(n.next)
    else if c == PREVIOUS then OrLost(n.previous)
    else if c == FIRST then OrLost(n.firstChild)
    else if c == LAST then OrLost(Vnode.At(w.kids[n], |w.kids[n]| - 1))
    else if n.onDisk then Lost
    else Child(w.kids[n], c)
  }

  // ---- Lookup ----

  /** What a lookup returns: a node or null, a panic, or the dereference of a null pointer. */
  datatype Outcome = Found(node: VNode?) | Panic | Fault

  /** From `n` along the rest of a path, links at its end not yet followed. */
  ghost function Lookup(w: World, n: VNode?, path: seq<byte>): (r: Outcome)
    requires Tree(w) && In(w, n)
    reads w.nodes
    ensures r.Found? ==> r.node != null && r.node in w.nodes
    decreases |path|
  {
    if path == [] then (if n == null then Fault else Found(n))
    else if n == null then Panic
    else if path[0] == SLASH then Lookup(w, n, path[1..])
    else
      var k := ComponentLength(path, 0);
      match Move(w, n, path[..k])
      case Lost => Panic
      case At(m) => Lookup(w, m, path[k..])
  }

  /** A link at the end is followed once. */
  ghost function Finish(w: World, o: Outcome): Outcome
    requires o.Found? ==> o.node != null
    reads if o.Found? && o.node != null then {o.node} else {}
  {
    if o.Found? && o.node.isLink then Found(o.node.link) else o
  }

  ghost function Find(w: World, base: VNode, path: seq<byte>): Outcome
    requires Tree(w) && base in w.nodes
    reads w.nodes
  {
    Finish(w, if path != [] && path[0] == SLASH then Lookup(w, w.root, path[1..]) else Lookup(w, base, path))
  }

  /** The recursive walk over components that a lookup carries out. */
  ghost function Walk(w: World, n: VNode?, cs: seq<seq<byte>>): Place
    requires Tree(w) && In(w, n)
    reads w.nodes
  {
    if cs == [] then At(n)
    else if n == null then Lost
    else
      match Move(w, n, cs[0])
      case Lost => Lost
      case At(m) => Walk(w, m, cs[1..])
  }

  /** A lookup finds a node exactly if the walk over the components ends at it. So slashes at the
      ends and repeated slashes do not matter. */
  lemma {:induction false} LookupIsWalk(w: World, n: VNode?, path: seq<byte>)
    requires Tree(w) && In(w, n)
    ensures var o, p := Lookup(w, n, path), Walk(w, n, Components(path));
      && (o.Found? <==> p.At? && p.node != null)
      && (o.Found? ==> o.node == p.node)
    decreases |path|
  {
    if path != [] && n != null {
      if path[0] == SLASH {
        LookupIsWalk(w, n, path[1..]);
      } else {
        var k := ComponentLength(path, 0);
        var place := Move(w, n, path[..k]);
        assert Components(path)[1..] == Components(path[k..]);
        if place.At? {
          LookupIsWalk(w, place.node, path[k..]);
        }
      }
    }
  }

  /** Looking up p/q is looking up q from where p leads. When p panics, so does p/q; it also
      panics where p alone would go through a null parent. */
  lemma {:induction false} LookupComposes(w: World, n: VNode?, p: seq<byte>, q: seq<byte>)
    requires Tree(w) && In(w, n)
    ensures Lookup(w, n, p + [SLASH] + q) ==
      var o := Lookup(w, n, p); if o.Found? then Lookup(w, o.node, q) else Panic
    decreases |p|
  {
    var path := p + [SLASH] + q;
    if n != null {
      if p == [] {
        assert path[1..] == q;
      } else if p[0] == SLASH {
        assert path[1..] == p[1..] + [SLASH] + q;
        LookupComposes(w, n, p[1..], q);
      } else {
        ComponentOfJoined(p, q, 0);
        var k := ComponentLength(p, 0);
        assert path[..k] == p[..k] && path[k..] == p[k..] + [SLASH] + q;
        var place := Move(w, n, p[..k]);
        if place.At? {
          LookupComposes(w, place.node, p[k..], q);
        }
      }
    }
  }

  /** The law for the function itself: p must not be empty (p/q would be absolute) nor lead to a
      link (which is followed at the end of a path only), and q must be relative. */
  lemma {:induction false} FindComposes(w: World, base: VNode, p: seq<byte>, q: seq<byte>)
    requires Tree(w) && base in w.nodes && p != [] && (q == [] || q[0] != SLASH)
    requires var o := Lookup(w, if p[0] == SLASH then w.root else base, if p[0] == SLASH then p[1..] else p);
             o.Found? ==> !o.node.isLink
    ensures Find(w, base, p + [SLASH] + q) ==
      var o := Find(w, base, p); if o.Found? then Find(w, o.node, q) else Panic
  {
    if p[0] == SLASH {
      assert (p + [SLASH] + q)[1..] == p[1..] + [SLASH] + q;
      LookupComposes(w, w.root, p[1..], q);
    } else {
      LookupComposes(w, base, p, q);
    }
  }

  lemma {:induction false} ComponentIsLong(path: seq<byte>, n: nat)
    requires n <= MAX <= |path| && forall k :: 0 <= k < MAX ==> path[k] != SLASH
    ensures ComponentLength(path, n) == MAX
    decreases MAX - n
  {
    if n < MAX {
      ComponentIsLong(path, n + 1);
    }
  }

  /** A longer run of characters is looked up as if a slash followed its first 127 ones. */
  lemma {:induction false} LongComponent(w: World, n: VNode?, path: seq<byte>)
    requires Tree(w) && In(w, n)
    requires |path| > MAX && forall k :: 0 <= k < MAX ==> path[k] != SLASH
    ensures Lookup(w, n, path) == Lookup(w, n, path[..MAX] + [SLASH] + path[MAX..])
  {
    hide Tree, Move;
    var cut := path[..MAX] + [SLASH] + path[MAX..];
    if n != null {
      ComponentIsLong(path, 0);
      ComponentIsLong(cut, 0);
      assert cut[..MAX] == path[..MAX] && cut[MAX..] == [SLASH] + path[MAX..];
      var place := Move(w, n, path[..MAX]);
      if place.At? {
        assert ([SLASH] + path[MAX..])[1..] == path[MAX..];
      }
    }
  }

  /** So a child whose name is longer is not found by it, nor by any other component. */
  lemma {:induction false} LongNameNotFound(s: seq<VNode>, path: seq<byte>, c: seq<byte>)
    requires c in Components(path)
    ensures Child(s, c).At? ==> Child(s, c).node != null && |Child(s, c).node.name| <= MAX
  {
    hide Child, Components;
    assert |c| <= MAX;
  }

  /** On a well-formed sibling list "~next" and "~previous" undo each other, and "~last" of the
      parent is the node that "~next" does not leave. */
  lemma NextPrevious(w: World, p: VNode, i: nat)
    requires Tree(w) && p in w.nodes && i < |w.kids[p]| && Children(p, w.kids[p])
    ensures var s := w.kids[p];
      && (i + 1 < |s| ==>
          Walk(w, s[i], [NEXT, PREVIOUS]) == At(s[i]) && Walk(w, s[i + 1], [PREVIOUS, NEXT]) == At(s[i + 1]))
      && (Walk(w, p, [LAST]) == At(s[i]) <==> Walk(w, s[i], [NEXT]) == Lost)
  {
    var s := w.kids[p];
    assert s[i].next == Vnode.At(s, i + 1);
    assert Walk(w, p, [LAST]) == Move(w, p, LAST) && Walk(w, s[i], [NEXT]) == Move(w, s[i], NEXT);
    if i + 1 < |s| {
      assert s[i + 1].previous == s[i];
      WalkTwo(w, s[i], NEXT, s[i + 1], PREVIOUS, s[i]);
      WalkTwo(w, s[i + 1], PREVIOUS, s[i], NEXT, s[i + 1]);
    }
  }

  lemma WalkTwo(w: World, n: VNode, a: seq<byte>, m: VNode, b: seq<byte>, r: VNode)
    requires Tree(w) && n in w.nodes && m in w.nodes && Move(w, n, a) == At(m) && Move(w, m, b) == At(r)
    ensures Walk(w, n, [a, b]) == At(r)
  {
    hide Move, Tree;
    assert [a, b][1..] == [b];
    assert Walk(w, m, [b]) == Walk(w, r, []);
  }

  // ---- One component, by its bytes ----

  /** A lookup that ends at a node follows the link that it may be. */
  ghost function Ends(n: VNode): Outcome
    reads n
  {
    if n.isLink then Found(n.link) else Found(n)
  }

  ghost function EndsOr(n: VNode?, otherwise: Outcome): Outcome
    reads if n == null then {} else {n}
  {
    if n == null then otherwise else Ends(n)
  }

  /** The child's name and the component have one length and agree up to the first NUL. */
  ghost predicate Named(k: VNode, c: seq<byte>)
    reads k
  {
    |k.name| == |c| && forall i :: 0 <= i < |c| && 0 !in k.name[..i] ==> k.name[i] == c[i]
  }

  predicate IsSpecial(c: seq<byte>) {
    || c == [46] || c == [46, 46] || c == [126, 115, 101, 108, 102] || c == [126, 112, 97, 114, 101, 110, 116]
    || c == [126, 110, 101, 120, 116] || c == [126, 112, 114, 101, 118, 105, 111, 117, 115]
    || c == [126, 102, 105, 114, 115, 116] || c == [126, 108, 97, 115, 116]
  }

  /** What a path of at most one component leads to from node n: "" and "." and "~self" to n, ".."
      and "~parent" to its parent, unless n is the root, "~next", "~previous" and "~first" to the
      nodes linked so, "~last" to the last child, and every other name to the first child that has
      it. A null parent is dereferenced, and everything else that is not there panics. */
  ghost predicate Answers(w: World, n: VNode, c: seq<byte>, r: Outcome)
    requires Tree(w) && n in w.nodes
    reads w.nodes
  {
    var s := w.kids[n];
    && (c == [] ==> r == Ends(n))
    && (c == [46] || c == [126, 115, 101, 108, 102] ==> r == Ends(n))
    && (c == [46, 46] || c == [126, 112, 97, 114, 101, 110, 116] ==>
          r == if n == w.root then Ends(n) else EndsOr(n.parent, Fault))
    && (c == [126, 110, 101, 120, 116] ==> r == EndsOr(n.next, Panic))
    && (c == [126, 112, 114, 101, 118, 105, 111, 117, 115] ==> r == EndsOr(n.previous, Panic))
    && (c == [126, 102, 105, 114, 115, 116] ==> r == EndsOr(n.firstChild, Panic))
    && (c == [126, 108, 97, 115, 116] ==> r == if s == [] then Panic else Ends(s[|s| - 1]))
    && (0 < |c| <= 127 && 47 !in c && !IsSpecial(c) ==>
          (n.onDisk ==> r == Panic)
          && (!n.onDisk && (forall i :: 0 <= i < |s| ==> !Named(s[i], c)) ==> r == Panic)
          && (forall i ::
                !n.onDisk && 0 <= i < |s| && Named(s[i], c) && (forall j :: 0 <= j < i ==> !Named(s[j], c)) ==>
                r == Ends(s[i])))
  }

  lemma {:induction false} SameStringNamed(k: VNode, c: seq<byte>)
    requires |k.name| == |c|
    ensures SameString(k.name, c) <==> Named(k, c)
  {
    forall i | 0 <= i < |c|
      ensures 0 !in k.name[..i] <==> forall j :: 0 <= j < i ==> k.name[j] != 0
    {
      assert forall j :: 0 <= j < i ==> k.name[..i][j] == k.name[j];
    }
  }

  lemma {:induction false} ChildIs(s: seq<VNode>, c: seq<byte>)
    ensures Child(s, c).Lost? <==> forall i :: 0 <= i < |s| ==> !Named(s[i], c)
    ensures forall i :: 0 <= i < |s| && Named(s[i], c) && (forall j :: 0 <= j < i ==> !Named(s[j], c)) ==>
              Child(s, c) == At(s[i])
    decreases |s|
  {
    hide SameString, Named;
    if s != [] {
      ChildIs(s[1..], c);
      CalledNamed(s[0], c);
      forall i | 0 <= i < |s| && Named(s[i], c) && (forall j :: 0 <= j < i ==> !Named(s[j], c))
        ensures Child(s, c) == At(s[i])
      {
        if i > 0 {
          assert s[1..][i - 1] == s[i] && forall j :: 0 <= j < i - 1 ==> s[1..][j] == s[j + 1];
        }
      }
      assert forall i :: 0 < i < |s| ==> s[i] == s[1..][i - 1];
    }
  }

  lemma CalledNamed(k: VNode, c: seq<byte>)
    ensures Called(k, c) <==> Named(k, c)
  {
    if |k.name| == |c| {
      SameStringNamed(k, c);
    }
  }

  lemma {:induction false} WholeComponent(c: seq<byte>, n: nat)
    requires n <= |c| <= MAX && SLASH !in c
    ensures ComponentLength(c, n) == |c|
    decreases |c| - n
  {
    if n < |c| {
      assert c[n] in c;
      WholeComponent(c, n + 1);
    }
  }

  lemma {:induction false} OneComponent(w: World, n: VNode, c: seq<byte>)
    requires Tree(w) && n in w.nodes && 0 < |c| <= MAX && SLASH !in c
    ensures Lookup(w, n, c) ==
      match Move(w, n, c) case Lost => Panic case At(m) => if m == null then Fault else Found(m)
  {
    hide Tree, Move;
    WholeComponent(c, 0);
    assert c[0] in c && c[..|c|] == c && c[|c|..] == [];
  }

  lemma {:induction false} LookupAnswers(w: World, n: VNode, c: seq<byte>)
    requires Tree(w) && n in w.nodes && |c| <= MAX && SLASH !in c
    ensures Answers(w, n, c, Finish(w, Lookup(w, n, c)))
  {
    hide Tree, Child, Named;
    if c != [] {
      OneComponent(w, n, c);
      FirstIs(w, n);
      ChildIs(w.kids[n], c);
    }
  }

  /** Paths of one component, and such paths behind a slash, which start at the root. */
  ghost predicate AnswersShort(w: World, base: VNode, path: seq<byte>, r: Outcome)
    requires Tree(w) && base in w.nodes
    reads w.nodes
  {
    && (|path| <= 127 && 47 !in path ==> Answers(w, base, path, r))
    && (0 < |path| <= 128 && path[0] == 47 && 47 !in path[1..] ==> Answers(w, w.root, path[1..], r))
  }

  lemma {:induction false} PathAnswers(w: World, base: VNode, path: seq<byte>)
    requires Tree(w) && base in w.nodes
    ensures AnswersShort(w, base, path, Find(w, base, path))
  {
    hide Tree, Move, Answers, Lookup;
    assert path != [] ==> path[0] in path;
    if |path| <= 127 && 47 !in path {
      LookupAnswers(w, base, path);
    }
    if 0 < |path| <= 128 && path[0] == 47 && 47 !in path[1..] {
      LookupAnswers(w, w.root, path[1..]);
    }
  }

  lemma FirstIs(w: World, n: VNode)
    requires Tree(w) && n in w.nodes
    ensures n in w.kids && n.firstChild == Vnode.At(w.kids[n], 0)
  {
  }

  // ---- The function ----

  /** strncmp against a constant without NUL, of the same length, is equality. */
  lemma SameWord(a: seq<byte>, word: seq<byte>)
    requires |a| == |word| && 0 !in word
    ensures SameString(a, word) <==> a == word
  {
    if SameString(a, word) {
      SameUpTo(a, word, |a|);
    }
  }

  lemma {:induction false} SameUpTo(a: seq<byte>, word: seq<byte>, n: nat)
    requires |a| == |word| && 0 !in word && SameString(a, word) && n <= |a|
    ensures forall j :: 0 <= j < n ==> a[j] == word[j] && word[j] != 0
    decreases n
  {
    if n > 0 {
      SameUpTo(a, word, n - 1);
      assert word[n - 1] in word;
    }
  }

  method IsWord(a: seq<byte>, word: seq<byte>) returns (r: bool)
    requires 0 !in word
    ensures r <==> a == word
  {
    if |a| != |word| {
      return false;
    }
    SameWord(a, word);
    var d := Strncmp(a, word, |word|);
    assert a[..|word|] == a;
    return d == 0;
  }

  /** Copies the next component to the buffer. */
  method TakeComponent(path: seq<byte>, i: nat, buffer: array<byte>) returns (n: nat)
    requires i < |path| && path[i] != SLASH && buffer.Length == MAX + 1
    modifies buffer
    ensures n == ComponentLength(path[i..], 0) && n > 0 && i + n <= |path| && buffer[..n] == path[i..i + n]
        && buffer[n] == 0
  {
    ghost var rest := path[i..];
    n := 0;
    while i + n < |path| && path[i + n] != SLASH && n < MAX
      invariant i + n <= |path| && n <= MAX
      invariant ComponentLength(rest, 0) == ComponentLength(rest, n)
      invariant forall k :: 0 <= k < n ==> buffer[k] == path[i + k]
    {
      buffer[n] := path[i + n];
      n := n + 1;
    }
    buffer[n] := 0;
  }

  method LastChild(w: World, n: VNode) returns (r: VNode?)
    requires Tree(w) && n in w.nodes
    ensures r == Vnode.At(w.kids[n], |w.kids[n]| - 1)
  {
    ghost var s, k := w.kids[n], 0;
    if n.firstChild == null {
      return null;
    }
    var last: VNode := n.firstChild;
    while last.next != null
      invariant 0 <= k < |s| && last == s[k]
      decreases |s| - k
    {
      assert s[k].next == Vnode.At(s, k + 1);
      last, k := last.next, k + 1;
    }
    return last;
  }

  lemma ChildStep(s: seq<VNode>, k: nat, c: seq<byte>)
    requires k <= |s|
    ensures Child(s[k..], c) ==
      if k == |s| then Lost else if Called(s[k], c) then At(s[k]) else Child(s[k + 1..], c)
  {
    if k < |s| {
      assert s[k..][0] == s[k] && s[k..][1..] == s[k + 1..];
    }
  }

  method FindChild(w: World, n: VNode, c: seq<byte>) returns (r: VNode?)
    requires Tree(w) && n in w.nodes
    ensures OrLost(r) == Child(w.kids[n], c)
  {
    hide SameString, Child;
    ghost var s, k := w.kids[n], 0;
    assert Forward(n.firstChild, s);
    assert s[0..] == s;
    r := n.firstChild;
    while r != null
      invariant 0 <= k <= |s| && r == Vnode.At(s, k)
      invariant Child(s, c) == Child(s[k..], c)
      decreases |s| - k
    {
      ChildStep(s, k, c);
      if |c| == |r.name| {
        var d := Strncmp(r.name, c, |c|);
        assert r.name[..|c|] == r.name;
        if d == 0 {
          return;
        }
      }
      assert s[k].next == Vnode.At(s, k + 1);
      r, k := r.next, k + 1;
    }
    ChildStep(s, k, c);
  }

  /** The step for one component; `ok` is false when it panics. */
  method Navigate(w: World, n: VNode, c: seq<byte>) returns (ok: bool, r: VNode?)
    requires Tree(w) && n in w.nodes
    ensures Move(w, n, c) == if ok then At(r) else Lost
  {
    hide Child, Tree;
    var isDotdot := IsWord(c, DOTDOT);
    var isParent := IsWord(c, PARENT);
    if isDotdot || isParent {
      return true, if n != w.root then n.parent else n;
    }
    var isDot := IsWord(c, DOT);
    var isSelf := IsWord(c, SELF);
    if isDot || isSelf {
      return true, n;
    }
    var isNext := IsWord(c, NEXT);
    if isNext {
      return n.next != null, n.next;
    }
    var isPrevious := IsWord(c, PREVIOUS);
    if isPrevious {
      return n.previous != null, n.previous;
    }
    var isFirst := IsWord(c, FIRST);
    if isFirst {
      return n.firstChild != null, n.firstChild;
    }
    var isLast := IsWord(c, LAST);
    if isLast {
      r := LastChild(w, n);
      return r != null, r;
    }
    if n.onDisk {
      return false, null;
    }
    r := FindChild(w, n, c);
    return r != null, r;
  }

  method DefaultRelativeFindFunction(w: World, base: VNode, path: seq<byte>) returns (r: Outcome)
    requires Tree(w) && base in w.nodes
    ensures r == Find(w, base, path)
    ensures AnswersShort(w, base, path, r)
  {
    hide Tree, Move, AnswersShort, Ends, Child, ComponentLength;
    PathAnswers(w, base, path);
    var buffer := new byte[MAX + 1];
    var current: VNode? := base;
    var i := 0;
    if |path| > 0 && path[0] == SLASH {
      current := w.root;
      i := 1;
    }
    ghost var goal := Lookup(w, current, path[i..]);
    assert i == 0 ==> path[i..] == path;
    while i < |path|
      invariant i <= |path| && In(w, current)
      invariant Lookup(w, current, path[i..]) == goal
      modifies buffer
    {
      if current == null {
        return Panic;
      }
      if path[i] == SLASH {
        assert path[i..][1..] == path[i + 1..];
        i := i + 1;
        continue;
      }
      var n := TakeComponent(path, i, buffer);
      assert path[i..][..n] == buffer[..n] && path[i..][n..] == path[i + n..];
      i := i + n;
      var ok, m := Navigate(w, current, buffer[..n]);
      if !ok {
        return Panic;
      }
      current := m;
    }
    if current == null {
      return Fault;
    }
    if current.isLink {
      return Found(current.link);
    }
    return Found(current);
  }
}
