/**
 * The red-black tree as the tree class keeps it: node objects with a colour, a parent
 * reference and a two-slot `children` array, linked from the tree's `root`. The node
 * objects are the entries of the map `nodes`, keyed by their identities; a reference
 * is an identity or `Nil`. A ghost value (a `RedBlackShapes.Tree` whose nodes are these
 * identities) describes the whole linked structure; every method that changes links or
 * colours is proved to change that value exactly as the matching value function does,
 * so that the red-black theorems proved about the value functions hold of the objects.
 */
module RedBlackTrees {

  import opened Wrappers
  import opened RedBlackShapes

  /** The empty reference. */
  const Nil: int := -1

  /** A node object: its key and value, its colour, its parent and its two child slots. */
  datatype Node<V> = Node(key: int, value: Option<V>, red: bool, parent: int, children: seq<int>)

  /** The fields of a node object that the shape of the tree determines: all but the value. */
  function LinkOf<V>(x: Node<V>): Link {
    Link(x.key, x.red, x.parent, x.children)
  }

  /** Every node object of `a` is still in `b`, with the same value. */
  ghost predicate KeepsValues<V>(a: map<nat, Node<V>>, b: map<nat, Node<V>>) {
    forall n {:trigger a[n]} | n in a :: n in b && b[n].value == a[n].value
  }

  lemma KeepsValuesTrans<V>(a: map<nat, Node<V>>, b: map<nat, Node<V>>, c: map<nat, Node<V>>)
    requires KeepsValues(a, b) && KeepsValues(b, c)
    ensures KeepsValues(a, c)
  {
  }

  /** The object at the root of a subtree, Nil for the empty one. */
  function Ref(t: Tree<nat>): int {
    if t.Leaf? then Nil else t.node
  }

  /** The field values a node object should hold. */
  datatype Link = Link(key: int, red: bool, parent: int, children: seq<int>)

  /**
   * What the subtree `t`, held below the parent object `up`, prescribes for its node
   * object `n`: the key and colour of its node, its parent's object and its two
   * subtrees' root objects.
   */
  ghost function Expected(t: Tree<nat>, up: int, n: nat): (r: Link)
    requires n in Nodes(t)
    ensures |r.children| == 2
    decreases t
  {
    if n == t.node then Link(t.key, t.red, up, [Ref(t.left), Ref(t.right)])
    else if n in Nodes(t.left) then Expected(t.left, t.node, n)
    else Expected(t.right, t.node, n)
  }

  /** The parent object of the node at the end of `p`. */
  ghost function ParentRef(t: Tree<nat>, up: int, p: seq<int>): (r: int)
    requires ValidPath(t, p)
    ensures |p| > 0 ==> r != Nil
    decreases |p|
  {
    if |p| == 0 then up else ParentRef(Child(t, p[0]), t.node, p[1..])
  }

  lemma {:induction false} ParentRefSnoc(t: Tree<nat>, up: int, p: seq<int>, d: int)
    requires ValidPath(t, p) && At(t, p).Br? && (d == 0 || d == 1)
    ensures ValidPath(t, p + [d]) && ParentRef(t, up, p + [d]) == At(t, p).node
    decreases |p|
  {
    PathSnoc(t, p, d);
    if |p| > 0 {
      assert (p + [d])[1..] == p[1..] + [d];
      ParentRefSnoc(Child(t, p[0]), t.node, p[1..], d);
    }
  }

  /** In a tree of distinct nodes, a replacement takes out the nodes at `q` and brings in those of `s`. */
  lemma {:induction false} NodesOfReplace<N>(t: Tree<N>, q: seq<int>, s: Tree<N>)
    requires ValidPath(t, q) && Unique(t)
    ensures Nodes(Replace(t, q, s)) == (Nodes(t) - Nodes(At(t, q))) + Nodes(s)
    decreases |q|
  {
    if |q| > 0 {
      NodesOfReplace(Child(t, q[0]), q[1..], s);
      NodesAt(t, q);
    }
  }

  /** Filling an empty subtree with new distinct nodes keeps the nodes distinct. */
  lemma {:induction false} FillKeepsUnique<N>(t: Tree<N>, p: seq<int>, s: Tree<N>)
    requires ValidPath(t, p) && At(t, p).Leaf? && Unique(t) && Unique(s) && Nodes(s) !! Nodes(t)
    ensures Nodes(Replace(t, p, s)) == Nodes(t) + Nodes(s) && Unique(Replace(t, p, s))
    decreases |p|
  {
    if |p| > 0 {
      FillKeepsUnique(Child(t, p[0]), p[1..], s);
    }
  }

  /** A node within the subtree at `q` is prescribed what that subtree, below its parent object, prescribes. */
  lemma {:induction false} ExpectedIn(t: Tree<nat>, up: int, q: seq<int>, n: nat)
    requires ValidPath(t, q) && Unique(t) && n in Nodes(At(t, q))
    ensures n in Nodes(t) && Expected(t, up, n) == Expected(At(t, q), ParentRef(t, up, q), n)
    decreases |q|
  {
    NodesAt(t, q);
    if |q| > 0 {
      ExpectedIn(Child(t, q[0]), t.node, q[1..], n);
    }
  }

  /** A replacement under the same root object changes nothing prescribed outside it. */
  lemma {:induction false} ExpectedOut(t: Tree<nat>, up: int, q: seq<int>, s: Tree<nat>, n: nat)
    requires ValidPath(t, q) && Unique(t) && (|q| > 0 ==> Ref(s) == Ref(At(t, q)))
    requires n in Nodes(t) && n !in Nodes(At(t, q)) && n !in Nodes(s)
    ensures n in Nodes(Replace(t, q, s)) && Expected(Replace(t, q, s), up, n) == Expected(t, up, n)
    decreases |q|
  {
    NodesOfReplace(t, q, s);
    if |q| > 0 {
      var c := Child(t, q[0]);
      NodesAt(t, q);
      NodesOfReplace(c, q[1..], s);
      if n in Nodes(c) {
        ExpectedOut(c, t.node, q[1..], s, n);
      }
      if |q| > 1 {
        ReplaceRoot(c, q[1..], s);
      }
    }
  }

  /** Within a replacement, what is prescribed is what the new subtree prescribes below the old parent object. */
  lemma {:induction false} ExpectedNew(t: Tree<nat>, up: int, q: seq<int>, s: Tree<nat>, n: nat)
    requires ValidPath(t, q) && Unique(t) && n in Nodes(s) && n !in Nodes(t) - Nodes(At(t, q))
    ensures n in Nodes(Replace(t, q, s))
    ensures Expected(Replace(t, q, s), up, n) == Expected(s, ParentRef(t, up, q), n)
    decreases |q|
  {
    NodesOfReplace(t, q, s);
    if |q| > 0 {
      var c := Child(t, q[0]);
      NodesAt(t, q);
      NodesOfReplace(c, q[1..], s);
      ExpectedNew(c, t.node, q[1..], s, n);
    }
  }

  /**
   * A rotation at `T` in direction `d` changes the prescribed links of three objects:
   * the parent gets the sibling as parent and the close nephew in slot `1 - d`, the
   * sibling gets `up` as parent and the parent in slot `d`, and the close nephew gets
   * the parent as parent.
   */
  lemma ExpectedRot(T: Tree<nat>, d: int, up: int, n: nat)
    requires T.Br? && (d == 0 || d == 1) && Child(T, 1 - d).Br? && Unique(T) && n in Nodes(T)
    ensures n in Nodes(Rot(T, d))
    ensures var S, E := Child(T, 1 - d), Expected(T, up, n);
      Expected(Rot(T, d), up, n) ==
        if n == T.node then E.(parent := S.node, children := E.children[1 - d := Ref(Child(S, d))])
        else if n == S.node then E.(parent := up, children := E.children[d := T.node])
        else if Child(S, d).Br? && n == Child(S, d).node then E.(parent := T.node)
        else E
  {
    RotKeeps(T, d);
    var S := Child(T, 1 - d);
    var A, B, C := Child(T, d), Child(S, d), Child(S, 1 - d);
    var I := WithChild(T, 1 - d, B);
    var R := Rot(T, d);
    assert Child(R, d) == I && Child(R, 1 - d) == C && Child(I, d) == A && Child(I, 1 - d) == B;
    assert Unique(S) && Unique(R) && Unique(I);
    if n == T.node {
      ExpectedChild(R, up, d, n);
    } else if n == S.node {
      ExpectedChild(T, up, 1 - d, n);
    } else if n in Nodes(A) {
      ExpectedChild(R, up, d, n);
      ExpectedChild(I, S.node, d, n);
      ExpectedChild(T, up, d, n);
    } else if n in Nodes(B) {
      ExpectedChild(R, up, d, n);
      ExpectedChild(I, S.node, 1 - d, n);
      ExpectedChild(T, up, 1 - d, n);
      ExpectedChild(S, T.node, d, n);
      if n != B.node {
        ExpectedUp(B, T.node, S.node, n);
      }
    } else {
      ExpectedChild(R, up, 1 - d, n);
      ExpectedChild(T, up, 1 - d, n);
      ExpectedChild(S, T.node, 1 - d, n);
    }
  }

  /** A node below slot `d` is prescribed what that child subtree prescribes below the root object. */
  lemma ExpectedChild(t: Tree<nat>, up: int, d: int, n: nat)
    requires t.Br? && (d == 0 || d == 1) && Unique(t) && n in Nodes(Child(t, d))
    ensures n in Nodes(t) && Expected(t, up, n) == Expected(Child(t, d), t.node, n)
  {
  }

  /** Below the root of a subtree, what is prescribed does not depend on the parent object above it. */
  lemma ExpectedUp(t: Tree<nat>, u: int, w: int, n: nat)
    requires n in Nodes(t) && n != t.node
    ensures Expected(t, u, n) == Expected(t, w, n)
  {
  }

  /**
   * The links of object `n` after the rotation at the end of `p` in direction `d`: the
   * parent `T` gets the sibling `S` as parent and the close nephew in slot `1 - d`, the
   * sibling gets the old grandparent as parent and `T` in slot `d`, the close nephew gets
   * `T` as parent, and the grandparent's slot that held `T` holds `S`; others keep theirs.
   */
  ghost function RotatedLink(t: Tree<nat>, p: seq<int>, d: int, n: nat): Link
    requires ValidPath(t, p) && At(t, p).Br? && (d == 0 || d == 1) && Child(At(t, p), 1 - d).Br? && n in Nodes(t)
  {
    var T := At(t, p);
    var S, E := Child(T, 1 - d), Expected(t, Nil, n);
    if n == T.node then E.(parent := S.node, children := E.children[1 - d := Ref(Child(S, d))])
    else if n == S.node then E.(parent := ParentRef(t, Nil, p), children := E.children[d := T.node])
    else if Child(S, d).Br? && n == Child(S, d).node then E.(parent := T.node)
    else if |p| > 0 && n == ParentRef(t, Nil, p) then
      PathParent(t, p);
      E.(children := E.children[p[|p| - 1] := S.node])
    else E
  }

  /**
   * The rotation at the end of `p` changes the prescribed links of the three objects
   * the local rotation touches and, below a grandparent, the grandparent's slot that
   * held the parent, which now holds the sibling; nothing else.
   */
  lemma RotateLinks(t: Tree<nat>, p: seq<int>, d: int, n: nat)
    requires ValidPath(t, p) && At(t, p).Br? && (d == 0 || d == 1) && Child(At(t, p), 1 - d).Br?
    requires Unique(t) && n in Nodes(t)
    ensures n in Nodes(RotateAt(t, p, d))
    ensures Expected(RotateAt(t, p, d), Nil, n) == RotatedLink(t, p, d, n)
  {
    UniqueAt(t, p);
    RotKeeps(At(t, p), d);
    if |p| == 0 {
      ExpectedRot(At(t, p), d, Nil, n);
    } else {
      RotateLinksBelow(t, p, d, n);
    }
  }

  /** `RotateLinks` for a rotation below the root, inside the subtree of the grandparent or outside it. */
  lemma RotateLinksBelow(t: Tree<nat>, p: seq<int>, d: int, n: nat)
    requires ValidPath(t, p) && At(t, p).Br? && (d == 0 || d == 1) && Child(At(t, p), 1 - d).Br? && |p| > 0
    requires Unique(t) && n in Nodes(t) && Unique(At(t, p)) && Nodes(Rot(At(t, p), d)) == Nodes(At(t, p))
    requires Unique(Rot(At(t, p), d))
    ensures n in Nodes(RotateAt(t, p, d))
    ensures Expected(RotateAt(t, p, d), Nil, n) == RotatedLink(t, p, d, n)
  {
    var T := At(t, p);
    var r := Rot(T, d);
    PathParent(t, p);
    var fq, e := p[..|p| - 1], p[|p| - 1];
    assert p == fq + [e];
    ParentRefSnoc(t, Nil, fq, e);
    var G := At(t, fq);
    UniqueAt(t, fq);
    NodesAt(t, fq);
    var G' := WithChild(G, e, r);
    ReplaceChild(t, fq, e, r);
    assert Nodes(G') == Nodes(G);
    if n in Nodes(G) {
      ExpectedIn(t, Nil, fq, n);
      ExpectedNew(t, Nil, fq, G', n);
      ExpectedWithChild(G, ParentRef(t, Nil, fq), e, r, n);
      if n in Nodes(T) {
        ExpectedIn(t, Nil, p, n);
        ExpectedRot(T, d, G.node, n);
      }
    } else {
      ExpectedOut(t, Nil, fq, G', n);
    }
  }

  /**
   * Below a new child `r` in slot `e` of `G`, holding the same nodes as the old one: `G`'s own
   * object gets `r` in that slot, the nodes of `r` are prescribed what `r` prescribes, and
   * the others keep what `G` prescribes.
   */
  lemma ExpectedWithChild(G: Tree<nat>, up: int, e: int, r: Tree<nat>, n: nat)
    requires G.Br? && (e == 0 || e == 1) && Unique(G) && Unique(r) && Nodes(r) == Nodes(Child(G, e)) && n in Nodes(G)
    ensures n in Nodes(WithChild(G, e, r))
    ensures Expected(WithChild(G, e, r), up, n) ==
      if n == G.node then Expected(G, up, n).(children := Expected(G, up, n).children[e := Ref(r)])
      else if n in Nodes(r) then Expected(r, G.node, n)
      else Expected(G, up, n)
  {
    var G' := WithChild(G, e, r);
    assert Nodes(G') == Nodes(G);
    if n == G.node {
      assert [Ref(G'.left), Ref(G'.right)] == [Ref(G.left), Ref(G.right)][e := Ref(r)];
    }
  }

  /** Node object `x` with `c` in child slot `i`. */
  function SetChild<V>(m: map<nat, Node<V>>, x: nat, i: int, c: int): (r: map<nat, Node<V>>)
    requires x in m && 0 <= i < |m[x].children|
    ensures r.Keys == m.Keys && |r[x].children| == |m[x].children|
  {
    m[x := m[x].(children := m[x].children[i := c])]
  }

  /** Node object `x` with parent `u`. */
  function SetParent<V>(m: map<nat, Node<V>>, x: nat, u: int): (r: map<nat, Node<V>>)
    requires x in m
    ensures r.Keys == m.Keys && r[x].children == m[x].children
  {
    m[x := m[x].(parent := u)]
  }

  /**
   * The node objects after the writes of a rotation at `parent` in direction `d`, in the
   * order the tree class makes them: the close nephew moves to the parent's slot `1 - d`,
   * the parent to the sibling's slot `d`, and the sibling to the grandparent's slot that
   * held the parent.
   */
  function Rewired<V>(m: map<nat, Node<V>>, parent: nat, sibling: nat, closeNephew: int, grandparent: int, d: int): (r: map<nat, Node<V>>)
    requires (d == 0 || d == 1) && parent in m && sibling in m && |m[parent].children| == 2 && |m[sibling].children| == 2
    requires closeNephew != Nil ==> closeNephew in m
    requires grandparent != Nil ==> grandparent in m && |m[grandparent].children| == 2
    ensures r.Keys == m.Keys
  {
    var m1 := SetChild(m, parent, 1 - d, closeNephew);
    var m2 := if closeNephew != Nil then SetParent(m1, closeNephew, parent) else m1;
    var m5 := SetParent(SetParent(SetChild(m2, sibling, d, parent), parent, sibling), sibling, grandparent);
    if grandparent != Nil then
      SetChild(m5, grandparent, if parent == m5[grandparent].children[1] then 1 else 0, sibling)
    else m5
  }

  /**
   * `r` is `m` after a rotation's rewiring: the parent's slot `1 - d` holds the close nephew
   * and its parent is the sibling, the sibling's slot `d` holds the parent and its parent is
   * the grandparent, the close nephew's parent is the parent, the grandparent's slot `e`
   * holds the sibling, and every other object is unchanged.
   */
  ghost predicate Rewires<V>(m: map<nat, Node<V>>, r: map<nat, Node<V>>, parent: nat, sibling: nat, closeNephew: int,
                             grandparent: int, d: int, e: int) {
    (d == 0 || d == 1) && parent in m && sibling in m && |m[parent].children| == 2 && |m[sibling].children| == 2 &&
    (closeNephew != Nil ==> closeNephew in m) &&
    (grandparent != Nil ==> grandparent in m && |m[grandparent].children| == 2 && (e == 0 || e == 1)) &&
    r.Keys == m.Keys &&
    r[parent] == m[parent].(parent := sibling, children := m[parent].children[1 - d := closeNephew]) &&
    r[sibling] == m[sibling].(parent := grandparent, children := m[sibling].children[d := parent]) &&
    (closeNephew != Nil ==> r[closeNephew] == m[closeNephew].(parent := parent)) &&
    (grandparent != Nil ==> r[grandparent] == m[grandparent].(children := m[grandparent].children[e := sibling])) &&
    forall n | n in m && n != parent && n != sibling && n != closeNephew && n != grandparent :: r[n] == m[n]
  }

  /**
   * When the four objects are distinct and the grandparent holds the parent in slot `e`
   * only, the rewiring in the source's order of writes has the net effect `Rewires` states.
   */
  lemma RewiredLookups<V>(m: map<nat, Node<V>>, parent: nat, sibling: nat, closeNephew: int, grandparent: int, d: int, e: int)
    requires (d == 0 || d == 1) && parent in m && sibling in m && |m[parent].children| == 2 && |m[sibling].children| == 2
    requires closeNephew != Nil ==> closeNephew in m
    requires grandparent != Nil ==> grandparent in m && |m[grandparent].children| == 2
    requires parent != sibling && closeNephew != parent && closeNephew != sibling
    requires grandparent != parent && grandparent != sibling && (grandparent != Nil ==> grandparent != closeNephew)
    requires grandparent != Nil ==> (e == 0 || e == 1) && m[grandparent].children[e] == parent && m[grandparent].children[1 - e] != parent
    ensures Rewires(m, Rewired(m, parent, sibling, closeNephew, grandparent, d), parent, sibling, closeNephew, grandparent, d, e)
  {
  }

  /**
   * The rotation at the end of `p` in direction `d` applies to the objects `m` that hold `t`:
   * `T` is the parent object, `S` the sibling, `c` the close nephew and `g` the grandparent,
   * which holds `T` in the slot of the last step of `p`.
   */
  ghost predicate Rotation<V>(root: int, m: map<nat, Node<V>>, bound: nat, t: Tree<nat>, p: seq<int>, d: int,
                              T: nat, S: nat, c: int, g: int) {
    ValidPath(t, p) && At(t, p).Br? && (d == 0 || d == 1) && Child(At(t, p), 1 - d).Br? &&
    T == At(t, p).node && S == Child(At(t, p), 1 - d).node &&
    c == Ref(Child(Child(At(t, p), 1 - d), d)) && g == ParentRef(t, Nil, p) &&
    Holds(root, m, bound, t) &&
    T in m && S in m && (c != Nil ==> c in m) && (g != Nil ==> g in m) && (LastStep(p) == 0 || LastStep(p) == 1) &&
    |m[T].children| == 2 && |m[S].children| == 2 && (g != Nil ==> |m[g].children| == 2) &&
    (g != Nil ==> m[g].children[LastStep(p)] == T && m[g].children[1 - LastStep(p)] != T)
  }

  /**
   * Node objects `m` that hold `t`, rewired for the rotation at the end of `p` in direction
   * `d`, hold the rotated tree, with the sibling as the root when `p` is empty, and keep
   * their values.
   */
  lemma RotateMap<V>(root: int, m: map<nat, Node<V>>, bound: nat, t: Tree<nat>, p: seq<int>, d: int,
                     T: nat, S: nat, c: int, g: int)
    requires Rotation(root, m, bound, t, p, d, T, S, c, g)
    ensures var ns := Rewired(m, T, S, c, g, d);
      Holds(if |p| == 0 then S else root, ns, bound, RotateAt(t, p, d)) && KeepsValues(m, ns) &&
      Nodes(RotateAt(t, p, d)) == Nodes(t)
  {
    RotateMapLinks(root, m, bound, t, p, d, T, S, c, g);
    RotateAtKeeps(t, p, d);
    if |p| > 0 {
      ReplaceRoot(t, p, Rot(At(t, p), d));
    } else {
      assert RotateAt(t, p, d) == Rot(t, d);
    }
  }

  /** The links part of `RotateMap`: every rewired object links as the rotated tree prescribes. */
  lemma RotateMapLinks<V>(root: int, m: map<nat, Node<V>>, bound: nat, t: Tree<nat>, p: seq<int>, d: int,
                          T: nat, S: nat, c: int, g: int)
    requires Rotation(root, m, bound, t, p, d, T, S, c, g)
    ensures var ns := Rewired(m, T, S, c, g, d);
      ns.Keys == m.Keys && forall n | n in ns ::
        n in Nodes(RotateAt(t, p, d)) && LinkOf(ns[n]) == Expected(RotateAt(t, p, d), Nil, n) && ns[n].value == m[n].value
  {
    var ns := Rewired(m, T, S, c, g, d);
    RotateObjects(t, p, d);
    RewiredLookups(m, T, S, c, g, d, LastStep(p));
    forall n | n in ns
      ensures n in Nodes(RotateAt(t, p, d)) && LinkOf(ns[n]) == Expected(RotateAt(t, p, d), Nil, n) && ns[n].value == m[n].value
    {
      RotateMapLink(root, m, ns, bound, t, p, d, T, S, c, g, n);
    }
  }

  /** `RotateMapLinks` for one object `n` of the rewired objects `ns`. */
  lemma RotateMapLink<V>(root: int, m: map<nat, Node<V>>, ns: map<nat, Node<V>>, bound: nat, t: Tree<nat>, p: seq<int>, d: int,
                         T: nat, S: nat, c: int, g: int, n: nat)
    requires Rotation(root, m, bound, t, p, d, T, S, c, g) && Rewires(m, ns, T, S, c, g, d, LastStep(p))
    requires n in m
    ensures n in ns && n in Nodes(RotateAt(t, p, d)) && LinkOf(ns[n]) == Expected(RotateAt(t, p, d), Nil, n) && ns[n].value == m[n].value
  {
    RotateObjects(t, p, d);
    RotateLinks(t, p, d, n);
    if |p| > 0 {
      PathParent(t, p);
    }
  }

  /**
   * Node objects `m` that hold `t`, with a new object `id` for `x`, red, below the parent of
   * the empty subtree at `P` and in the parent's slot of the last step of `P`, hold `t` with
   * the new red node in that subtree.
   */
  lemma AttachMap<V>(root: int, m: map<nat, Node<V>>, bound: nat, t: Tree<nat>, P: seq<int>, id: nat, x: Node<V>, parent: int)
    requires Holds(root, m, bound, t) && ValidPath(t, P) && |P| > 0 && At(t, P).Leaf?
    requires id !in Nodes(t) && id < bound && x.children == [Nil, Nil] && parent == ParentRef(t, Nil, P)
    ensures parent in m && parent != id && |m[parent].children| == 2 && (LastStep(P) == 0 || LastStep(P) == 1)
    ensures var ns := SetChild(m[id := x.(red := true, parent := parent)], parent, LastStep(P), id);
      Holds(root, ns, bound, Replace(t, P, Br(Leaf, id, x.key, true, Leaf))) && KeepsValues(m, ns) && ns[id].value == x.value
  {
    var leaf := Br(Leaf, id, x.key, true, Leaf);
    PathParent(t, P);
    var pp := P[..|P| - 1];
    assert P == pp + [LastStep(P)];
    ParentRefSnoc(t, Nil, pp, LastStep(P));
    NodesAt(t, pp);
    assert LinkOf(m[parent]) == Expected(t, Nil, parent);
    var ns := SetChild(m[id := x.(red := true, parent := parent)], parent, LastStep(P), id);
    assert Nodes(leaf) == {id} && Unique(leaf);
    FillKeepsUnique(t, P, leaf);
    ReplaceRoot(t, P, leaf);
    forall n | n in ns
      ensures LinkOf(ns[n]) == Expected(Replace(t, P, leaf), Nil, n)
    {
      AttachLinks(t, P, id, x.key, n);
    }
  }

  /** Recolouring the node at `r` changes the prescribed colour of its object and nothing else. */
  lemma PaintLinks(t: Tree<nat>, r: seq<int>, red: bool, n: nat)
    requires ValidPath(t, r) && At(t, r).Br? && Unique(t) && n in Nodes(t)
    ensures n in Nodes(PaintAt(t, r, red))
    ensures Expected(PaintAt(t, r, red), Nil, n) ==
      if n == At(t, r).node then Expected(t, Nil, n).(red := red) else Expected(t, Nil, n)
  {
    var X := At(t, r);
    Recolour(X, red);
    NodesAt(t, r);
    if n in Nodes(X) {
      ExpectedIn(t, Nil, r, n);
      ExpectedNew(t, Nil, r, X.(red := red), n);
    } else {
      ExpectedOut(t, Nil, r, X.(red := red), n);
    }
  }

  /**
   * Attaching a new red node `m` at the empty subtree at `P`: `m` is prescribed its key,
   * red, its parent and no children; the parent gets `m` in the slot of the last step.
   */
  lemma AttachLinks(t: Tree<nat>, P: seq<int>, m: nat, k: int, n: nat)
    requires ValidPath(t, P) && |P| > 0 && At(t, P).Leaf? && Unique(t) && m !in Nodes(t)
    requires n in Nodes(t) || n == m
    ensures n in Nodes(Replace(t, P, Br(Leaf, m, k, true, Leaf)))
    ensures P[|P| - 1] == 0 || P[|P| - 1] == 1
    ensures Expected(Replace(t, P, Br(Leaf, m, k, true, Leaf)), Nil, n) ==
      if n == m then Link(k, true, ParentRef(t, Nil, P), [Nil, Nil])
      else if n == ParentRef(t, Nil, P) then Expected(t, Nil, n).(children := Expected(t, Nil, n).children[P[|P| - 1] := m])
      else Expected(t, Nil, n)
  {
    var leaf := Br(Leaf, m, k, true, Leaf);
    PathParent(t, P);
    var pp, dir := P[..|P| - 1], P[|P| - 1];
    assert P == pp + [dir];
    ParentRefSnoc(t, Nil, pp, dir);
    var G := At(t, pp);
    UniqueAt(t, pp);
    NodesAt(t, pp);
    var G' := WithChild(G, dir, leaf);
    ReplaceChild(t, pp, dir, leaf);
    assert Nodes(G') == Nodes(G) + {m};
    if n in Nodes(G') {
      ExpectedNew(t, Nil, pp, G', n);
      if n != m {
        ExpectedIn(t, Nil, pp, n);
      }
    } else {
      ExpectedOut(t, Nil, pp, G', n);
    }
  }


  /** The slot of the last step of `p`, 0 for the root. */
  function LastStep(p: seq<int>): int {
    if |p| == 0 then 0 else p[|p| - 1]
  }

  /** The objects a rotation at the end of `p` touches are nodes of `t` and distinct. */
  lemma RotateObjects(t: Tree<nat>, p: seq<int>, d: int)
    requires ValidPath(t, p) && At(t, p).Br? && (d == 0 || d == 1) && Child(At(t, p), 1 - d).Br? && Unique(t)
    ensures var T := At(t, p); var S := Child(T, 1 - d);
      var c, g := Ref(Child(S, d)), ParentRef(t, Nil, p);
      T.node in Nodes(t) && S.node in Nodes(t) && (c != Nil ==> c in Nodes(t)) && (g != Nil ==> g in Nodes(t)) &&
      (LastStep(p) == 0 || LastStep(p) == 1) &&
      T.node != S.node && c != T.node && c != S.node && g != T.node && g != S.node && (g != Nil ==> g != c)
  {
    var T := At(t, p);
    var S := Child(T, 1 - d);
    var g := ParentRef(t, Nil, p);
    NodesAt(t, p);
    UniqueAt(t, p);
    assert Unique(S);
    if |p| > 0 {
      PathParent(t, p);
      var fq := p[..|p| - 1];
      assert p == fq + [LastStep(p)];
      ParentRefSnoc(t, Nil, fq, LastStep(p));
      UniqueAt(t, fq);
      NodesAt(t, fq);
      assert g !in Nodes(T);
    }
  }


  /** Where an insert of key `k` attaches: below `parent` in slot `d`, or as the root when `parent` is Nil. */
  ghost predicate InsertPoint(t: Tree<nat>, k: int, parent: int, d: int) {
    var p := Descend(t, k);
    At(t, p).Leaf? &&
    if |p| == 0 then parent == Nil
    else
      PathParent(t, p);
      parent == At(t, p[..|p| - 1]).node && d == p[|p| - 1]
  }

  /** The case the insert fix-up loop leaves with. */
  datatype InsertCase = Three | Four | FiveSix

  /**
   * One round of the insert fix-up seen from the objects: which of the cases applies at
   * the node at `p` whose parent object is `x`, and the tree the fix-up then reaches.
   */
  ghost predicate Round<V>(t: Tree<nat>, nodes: map<nat, Node<V>>, p: seq<int>, x: int) {
    ValidPath(t, p) && At(t, p).Br? && x in nodes && |p| > 0 && ValidPath(t, p[..|p| - 1]) && At(t, p[..|p| - 1]).Br? &&
    At(t, p) == Child(At(t, p[..|p| - 1]), p[|p| - 1]) && (p[|p| - 1] == 0 || p[|p| - 1] == 1) &&
    (!nodes[x].red ==> FixUp(t, p) == t) &&
    (nodes[x].red && nodes[x].parent == Nil ==>
      |p| == 1 && At(t, []).Br? && At(t, []).node == x && FixUp(t, p) == PaintAt(t, [], false)) &&
    (nodes[x].red && nodes[x].parent != Nil ==>
      |p| >= 2 && nodes[x].parent in nodes && |nodes[nodes[x].parent].children| == 2 &&
      var g, q, e, f := nodes[x].parent, p[..|p| - 2], p[|p| - 2], p[|p| - 1];
      ValidPath(t, q) && At(t, q).Br? && At(t, q).node == g && (e == 0 || e == 1) &&
      Child(At(t, q), e).Br? && Child(At(t, q), e).node == x && Child(Child(At(t, q), e), f) == At(t, p) &&
      nodes[g].children[e] == x && nodes[g].children[1 - e] != x &&
      var u := nodes[g].children[1 - e];
      (u == Nil || u in nodes) &&
      ((u == Nil || !nodes[u].red) ==> FixUp(t, p) == Replace(t, q, Restructure(At(t, q), e, f))) &&
      (u != Nil && nodes[u].red ==>
        Child(At(t, q), 1 - e).Br? && Child(At(t, q), 1 - e).node == u &&
        ValidPath(Replace(t, q, Flip(At(t, q))), q) && At(Replace(t, q, Flip(At(t, q))), q).Br? &&
        At(Replace(t, q, Flip(At(t, q))), q).node == g && FixUp(t, p) == FixUp(Replace(t, q, Flip(At(t, q))), q)))
  }

  /**
   * The root reference and the node objects hold `t`: each node of `t` once, each as `t`
   * prescribes, no other, and all with identities below `bound`.
   */
  ghost predicate Holds<V>(root: int, nodes: map<nat, Node<V>>, bound: nat, t: Tree<nat>) {
    root == Ref(t) && Unique(t) && nodes.Keys == Nodes(t) && (forall n | n in nodes :: n < bound) &&
    forall n {:trigger Expected(t, Nil, n)} | n in nodes :: LinkOf(nodes[n]) == Expected(t, Nil, n)
  }

  /** What `t` prescribes refers only to `up`, to node objects of `t` or to nothing. */
  lemma {:induction false} ExpectedRefs(t: Tree<nat>, up: int, n: nat)
    requires n in Nodes(t)
    ensures var r := Expected(t, up, n);
      (r.parent == up || r.parent in Nodes(t)) &&
      (r.children[0] == Nil || r.children[0] in Nodes(t)) && (r.children[1] == Nil || r.children[1] in Nodes(t))
    decreases t
  {
    if n != t.node {
      if n in Nodes(t.left) {
        ExpectedRefs(t.left, t.node, n);
      } else {
        ExpectedRefs(t.right, t.node, n);
      }
    }
  }

  class RedBlackTree<V> {
    var root: int
    var nodes: map<nat, Node<V>>
    var nextId: nat
    ghost var t: Tree<nat>

    /** The node objects hold `t`: each node of `t` once, each as `t` prescribes, and no other. */
    ghost predicate Linked()
      reads this
    {
      Holds(root, nodes, nextId, t)
    }

    /** A linked search tree that keeps the red-black rules. */
    ghost predicate Valid()
      reads this
    {
      Linked() && Ordered(t) && RedBlack(t)
    }

    /** Every node object has two child slots, and every reference is empty or to a node object. */
    ghost predicate Closed()
      reads this
    {
      forall n {:trigger nodes[n]} | n in nodes ::
        |nodes[n].children| == 2 && (nodes[n].parent == Nil || nodes[n].parent in nodes) &&
        (nodes[n].children[0] == Nil || nodes[n].children[0] in nodes) &&
        (nodes[n].children[1] == Nil || nodes[n].children[1] in nodes)
    }

    constructor ()
      ensures Valid() && t == Leaf && nodes == map[]
    {
      root := Nil;
      nodes := map[];
      nextId := 0;
      t := Leaf;
    }

    function IsEmpty(): (r: bool)
      reads this
      requires Linked()
      ensures r <==> Keys(t) == []
    {
      root == Nil
    }

    /** Which slot of `p` holds `x`: 0 when it is the first one, 1 otherwise. */
    function IndexIn(x: int, p: int): int
      reads this
      requires p in nodes && |nodes[p].children| > 0
    {
      if nodes[p].children[0] == x then 0 else 1
    }

    function IndexInParent(x: int): int
      reads this
      requires x in nodes && nodes[x].parent in nodes && |nodes[nodes[x].parent].children| == 2
    {
      IndexIn(x, nodes[x].parent)
    }

    function Grandparent(x: int): int
      reads this
      requires Closed() && x in nodes
    {
      var p := nodes[x].parent;
      if p == Nil then Nil else nodes[p].parent
    }

    function Sibling(x: int): int
      reads this
      requires Closed() && x in nodes
    {
      var p := nodes[x].parent;
      if p == Nil then Nil else nodes[p].children[1 - IndexIn(x, p)]
    }

    function Uncle(x: int): int
      reads this
      requires Closed() && x in nodes
    {
      var p := nodes[x].parent;
      if p == Nil then Nil else Sibling(p)
    }

    function CloseNephew(x: int): int
      reads this
      requires Closed() && x in nodes
    {
      var p := nodes[x].parent;
      if p == Nil || Sibling(x) == Nil then Nil else nodes[Sibling(x)].children[IndexIn(x, p)]
    }

    function DistantNephew(x: int): int
      reads this
      requires Closed() && x in nodes
    {
      var p := nodes[x].parent;
      if p == Nil || Sibling(x) == Nil then Nil else nodes[Sibling(x)].children[1 - IndexIn(x, p)]
    }

    /** A linked tree's references are closed. */
    lemma LinkedClosed()
      requires Linked()
      ensures Closed()
    {
      forall n | n in nodes
        ensures |nodes[n].children| == 2 && (nodes[n].parent == Nil || nodes[n].parent in nodes) &&
          (nodes[n].children[0] == Nil || nodes[n].children[0] in nodes) &&
          (nodes[n].children[1] == Nil || nodes[n].children[1] in nodes)
      {
        ExpectedRefs(t, Nil, n);
      }
    }

    /** The node object at `q` holds its node's key and colour, its parent and its subtrees' roots. */
    lemma Fields(q: seq<int>)
      requires Linked() && ValidPath(t, q) && At(t, q).Br?
      ensures var x := At(t, q);
        x.node in nodes && nodes[x.node].key == x.key && nodes[x.node].red == x.red &&
        nodes[x.node].parent == ParentRef(t, Nil, q) && nodes[x.node].children == [Ref(x.left), Ref(x.right)]
    {
      NodesAt(t, q);
      ExpectedIn(t, Nil, q, At(t, q).node);
    }

    /** The node holding `key`: down to slot 0 below larger keys and to slot 1 otherwise. */
    method Find(key: int) returns (n: int)
      requires Valid()
      ensures n == Nil <==> key !in Keys(t)
      ensures n != Nil ==> n in nodes && nodes[n].key == key
    {
      n := root;
      ghost var p: seq<int> := [];
      while n != Nil
        invariant ValidPath(t, p) && n == Ref(At(t, p))
        invariant Descend(t, key) == p + Descend(At(t, p), key)
        decreases At(t, p)
      {
        Fields(p);
        if nodes[n].key == key {
          DescendFinds(t, key);
          assert p + [] == p;
          return;
        }
        var d := if nodes[n].key > key then 0 else 1;
        DescendFrom(t, key, p, d);
        n := nodes[n].children[d];
        p := p + [d];
      }
      DescendFinds(t, key);
      assert p + [] == p;
    }

    /**
     * The node holding `key` with -1, or the node and the empty slot where `key`
     * belongs, or `Nil` and -1 in an empty tree.
     */
    method FindForInsert(key: int) returns (n: int, d: int)
      requires Valid()
      ensures d == -1 && n != Nil <==> key in Keys(t)
      ensures d == -1 && n != Nil ==> n in nodes && nodes[n].key == key
      ensures n == Nil <==> t.Leaf?
      ensures d != -1 ==> n in nodes && (d == 0 || d == 1) && |nodes[n].children| == 2 && nodes[n].children[d] == Nil
      ensures d != -1 ==> (d == 0 <==> key < nodes[n].key) && key != nodes[n].key
      ensures key !in Keys(t) ==> InsertPoint(t, key, n, d)
    {
      DescendFinds(t, key);
      n := root;
      ghost var p: seq<int> := [];
      while n != Nil
        invariant ValidPath(t, p) && n == Ref(At(t, p)) && (n == Nil ==> p == [])
        invariant Descend(t, key) == p + Descend(At(t, p), key)
        decreases At(t, p)
      {
        Fields(p);
        if nodes[n].key == key {
          assert p + [] == p;
          return n, -1;
        }
        var dir := if nodes[n].key > key then 0 else 1;
        DescendFrom(t, key, p, dir);
        var child := nodes[n].children[dir];
        if child == Nil {
          assert (p + [dir]) + [] == p + [dir] && (p + [dir])[..|p|] == p;
          return n, dir;
        }
        n := child;
        p := p + [dir];
      }
      return Nil, -1;
    }

    /**
     * Rotation at `parent`, the node at `p`, in `direction`: fails, changing nothing, when
     * slot `1 - direction` is empty; otherwise that child takes the parent's place, in the
     * grandparent's slot or as the root.
     */
    method Rotate(parent: nat, direction: int, ghost p: seq<int>) returns (s: int)
      requires Linked() && ValidPath(t, p) && At(t, p).Br? && At(t, p).node == parent
      requires direction == 0 || direction == 1
      modifies this
      ensures Linked() && Nodes(t) == Nodes(old(t)) && KeepsValues(old(nodes), nodes) && nextId == old(nextId)
      ensures Child(At(old(t), p), 1 - direction).Leaf? ==> s == Nil && t == old(t)
      ensures Child(At(old(t), p), 1 - direction).Br? ==>
        s == Child(At(old(t), p), 1 - direction).node && t == RotateAt(old(t), p, direction)
    {
      Fields(p);
      var sibling := nodes[parent].children[1 - direction];
      if sibling == Nil {
        return Nil;
      }
      ghost var t0, r0, m := t, root, nodes;
      RotationFrame(p, direction);
      var grandparent := nodes[parent].parent;
      var closeNephew := nodes[sibling].children[direction];
      nodes := Rewired(nodes, parent, sibling, closeNephew, grandparent, direction);
      if grandparent == Nil {
        root := sibling;
      }
      RotateMap(r0, m, nextId, t0, p, direction, parent, sibling, closeNephew, grandparent);
      t := RotateAt(t0, p, direction);
      s := sibling;
    }

    /**
     * The node objects a rotation at the end of `p` in direction `d` rewrites: the
     * parent `T`, the sibling `S` in its slot `1 - d`, the close nephew in the sibling's
     * slot `d` and the grandparent, which holds `T` in the slot of the last step of `p`.
     */
    lemma RotationFrame(p: seq<int>, d: int)
      requires Linked() && ValidPath(t, p) && At(t, p).Br? && (d == 0 || d == 1) && Child(At(t, p), 1 - d).Br?
      ensures var T := At(t, p); var S := Child(T, 1 - d);
        var c, g := Ref(Child(S, d)), ParentRef(t, Nil, p);
        T.node in nodes && S.node in nodes && |nodes[T.node].children| == 2 && |nodes[S.node].children| == 2 &&
        nodes[T.node].children[1 - d] == S.node && nodes[T.node].parent == g && nodes[S.node].children[d] == c &&
        (c != Nil ==> c in nodes) && (g == Nil <==> |p| == 0) && (LastStep(p) == 0 || LastStep(p) == 1) &&
        (g != Nil ==>
          g in nodes && |nodes[g].children| == 2 &&
          nodes[g].children[LastStep(p)] == T.node && nodes[g].children[1 - LastStep(p)] != T.node) &&
        T.node != S.node && c != T.node && c != S.node && g != T.node && g != S.node && (g != Nil ==> g != c)
    {
      Fields(p);
      PathSnoc(t, p, 1 - d);
      Fields(p + [1 - d]);
      RotateObjects(t, p, d);
      if |p| > 0 {
        Slot(p);
      }
    }

    /** Recolouring of the node `x` at `r`. */
    method Paint(x: nat, red: bool, ghost r: seq<int>)
      requires Linked() && ValidPath(t, r) && At(t, r).Br? && At(t, r).node == x
      modifies this
      ensures Linked() && Nodes(t) == Nodes(old(t)) && KeepsValues(old(nodes), nodes) && nextId == old(nextId)
      ensures t == PaintAt(old(t), r, red)
    {
      ghost var t0 := t;
      UniqueAt(t0, r);
      Recolour(At(t0, r), red);
      NodesReplace(t0, r, At(t0, r).(red := red));
      if |r| > 0 {
        ReplaceRoot(t0, r, At(t0, r).(red := red));
      }
      NodesAt(t0, r);
      nodes := nodes[x := nodes[x].(red := red)];
      t := PaintAt(t0, r, red);
      forall n | n in nodes
        ensures LinkOf(nodes[n]) == Expected(t, Nil, n)
      {
        PaintLinks(t0, r, red, n);
      }
    }

    /** Case 2 of the insert fix-up: the red parent and the red uncle turn black, the grandparent red. */
    method Case2(parent: nat, uncle: nat, grandparent: nat, ghost q: seq<int>, ghost e: int)
      requires Linked() && ValidPath(t, q) && At(t, q).Br? && At(t, q).node == grandparent && (e == 0 || e == 1)
      requires Child(At(t, q), e).Br? && Child(At(t, q), e).node == parent
      requires Child(At(t, q), 1 - e).Br? && Child(At(t, q), 1 - e).node == uncle
      modifies this
      ensures Linked() && KeepsValues(old(nodes), nodes) && nextId == old(nextId)
      ensures t == Replace(old(t), q, Flip(At(old(t), q)))
    {
      assert At(t, q).left.Br? && At(t, q).right.Br?;
      FlipByPaints(t, q, e);
      Paint(parent, false, q + [e]);
      Paint(uncle, false, q + [1 - e]);
      Paint(grandparent, true, q);
    }

    /**
     * Cases 5 and 6 of the insert fix-up, the parent in slot `direction` of the
     * grandparent at `q` and `node` in slot `f` of the parent: an inner node is first
     * rotated over the parent, then the grandparent is rotated down, the node now in
     * its place turns black and the grandparent red.
     */
    method Cases56(node: nat, parent: nat, grandparent: nat, direction: int, ghost q: seq<int>, ghost f: int)
      requires Linked() && ValidPath(t, q) && At(t, q).Br? && At(t, q).node == grandparent
      requires (direction == 0 || direction == 1) && (f == 0 || f == 1)
      requires Child(At(t, q), direction).Br? && Child(At(t, q), direction).node == parent
      requires Child(Child(At(t, q), direction), f).Br? && Child(Child(At(t, q), direction), f).node == node
      modifies this
      ensures Linked() && KeepsValues(old(nodes), nodes) && nextId == old(nextId)
      ensures t == Replace(old(t), q, Restructure(At(old(t), q), direction, f))
    {
      var node := node;
      var iterativeParent := parent;
      RestructureByRotations(t, q, direction, f);
      PathSnoc(t, q, direction);
      Fields(q + [direction]);
      UniqueAt(t, q + [direction]);
      if node == nodes[iterativeParent].children[1 - direction] {
        var _ := Rotate(iterativeParent, direction, q + [direction]);
        node := iterativeParent;
        Fields(q);
        iterativeParent := nodes[grandparent].children[direction];
      }
      var _ := Rotate(grandparent, 1 - direction, q);
      Paint(iterativeParent, false, q);
      Paint(grandparent, true, q + [1 - direction]);
    }

    /**
     * Insert of `newNode` as the node object `id`, red, below `parent` in slot
     * `insertDirection`, or as the root, followed by the fix-up.
     */
    method InsertAt(parent: int, id: nat, newNode: Node<V>, insertDirection: int)
      requires Linked() && id !in Nodes(t) && id < nextId && newNode.children == [Nil, Nil]
      requires InsertPoint(t, newNode.key, parent, insertDirection)
      modifies this
      ensures Linked() && t == InsertTree(old(t), id, newNode.key) && nextId == old(nextId)
      ensures KeepsValues(old(nodes), nodes) && id in nodes && nodes[id].value == newNode.value
    {
      ghost var P := Descend(t, newNode.key);
      ghost var leaf := Br(Leaf, id, newNode.key, true, Leaf);
      ghost var t0 := t;
      if |P| > 0 {
        PathParent(t, P);
        ParentRefSnoc(t, Nil, P[..|P| - 1], P[|P| - 1]);
        assert P == P[..|P| - 1] + [P[|P| - 1]];
        AttachMap(root, nodes, nextId, t, P, id, newNode, parent);
      }
      var node := id;
      nodes := nodes[node := newNode.(red := true, parent := parent)];
      if parent == Nil {
        root := node;
        t := leaf;
        assert Nodes(t) == {id} && nodes.Keys == {id};
        return;
      }
      var direction := insertDirection;
      nodes := SetChild(nodes, parent, direction, node);
      t := Replace(t0, P, leaf);
      assert ValidPath(t, P) && At(t, P) == leaf by {
        AtReplace(t0, P, leaf);
      }
      assert node in nodes && nodes[node].parent == ParentRef(t, Nil, P) by {
        Fields(P);
      }
      ghost var mid := nodes;
      Rebalance(node, parent, P);
      KeepsValuesTrans(old(nodes), mid, nodes);
    }

    /**
     * The fix-up loop of an insert, from the node `start` at `at` whose parent object
     * is `parent`: case 2 recolours and climbs two levels; case 1 (black parent) ends
     * it; case 4 (red root parent) and cases 5 and 6 (black uncle) end it after the loop.
     */
    method Rebalance(start: nat, parent: nat, ghost at: seq<int>)
      requires Linked() && ValidPath(t, at) && At(t, at).Br? && At(t, at).node == start
      requires parent == ParentRef(t, Nil, at)
      modifies this
      ensures Linked() && t == FixUp(old(t), at) && nextId == old(nextId) && KeepsValues(old(nodes), nodes)
    {
      var node := start;
      var direction := 0;
      ghost var final := FixUp(t, at);
      ghost var p := at;
      ghost var pp, q: seq<int> := [], [];
      ghost var e, f := 0, 0;
      var iterativeParent := parent;
      var grandparent := Nil;
      var nextCase := Three;
      while iterativeParent != Nil
        invariant Linked() && nextId == old(nextId) && KeepsValues(old(nodes), nodes)
        invariant ValidPath(t, p) && At(t, p).Br? && At(t, p).node == node
        invariant iterativeParent == ParentRef(t, Nil, p) && (iterativeParent == Nil ==> p == [])
        invariant FixUp(t, p) == final
        decreases |p|
      {
        assert Round(t, nodes, p, iterativeParent) by {
          Step(p, iterativeParent);
        }
        pp, f := p[..|p| - 1], p[|p| - 1];
        if !nodes[iterativeParent].red {
          return;
        }
        grandparent := nodes[iterativeParent].parent;
        if grandparent == Nil {
          nextCase := Four;
          break;
        }
        q, e := p[..|p| - 2], p[|p| - 2];
        direction := IndexInParent(iterativeParent);
        assert direction == e;
        var uncle := nodes[grandparent].children[1 - direction];
        if uncle == Nil || !nodes[uncle].red {
          nextCase := FiveSix;
          break;
        }
        ghost var before := nodes;
        Case2(iterativeParent, uncle, grandparent, q, e);
        KeepsValuesTrans(old(nodes), before, nodes);
        node := grandparent;
        assert node in nodes && nodes[node].parent == ParentRef(t, Nil, q) by {
          Fields(q);
        }
        iterativeParent := nodes[node].parent;
        p := q;
      }
      ghost var before := nodes;
      if nextCase == Three {
        return;
      }
      if nextCase == Four {
        Paint(iterativeParent, false, []);
      } else {
        Cases56(node, iterativeParent, grandparent, direction, q, f);
      }
      KeepsValuesTrans(old(nodes), before, nodes);
    }

    /**
     * Insert of a node: nothing happens when its key is present; otherwise it becomes
     * a new node object, attached where the search ends, and the fix-up restores the
     * red-black rules.
     */
    method Insert(node: Node<V>)
      requires Valid() && node.children == [Nil, Nil]
      modifies this
      ensures Valid()
      ensures node.key in Keys(old(t)) ==> t == old(t) && nodes == old(nodes)
      ensures node.key !in Keys(old(t)) ==>
        t == InsertTree(old(t), old(nextId), node.key) &&
        multiset(Keys(t)) == multiset(Keys(old(t))) + multiset{node.key} && Nodes(t) == Nodes(old(t)) + {old(nextId)} &&
        KeepsValues(old(nodes), nodes) && nodes[old(nextId)].value == node.value
    {
      var parent, direction := FindForInsert(node.key);
      if direction == -1 && parent != Nil {
        return;
      }
      var id := nextId;
      nextId := nextId + 1;
      assert Ordered(InsertTree(t, id, node.key)) && RedBlack(InsertTree(t, id, node.key)) &&
        multiset(Keys(InsertTree(t, id, node.key))) == multiset(Keys(t)) + multiset{node.key} &&
        Nodes(InsertTree(t, id, node.key)) == Nodes(t) + {id} by {
        InsertKeys(t, id, node.key);
        InsertNodes(t, id, node.key);
        InsertRedBlack(t, id, node.key);
      }
      InsertAt(parent, id, node, direction);
    }

    /**
     * The node objects one and two steps above the node at `p`: the parent with its colour
     * and its parent, and the grandparent with its two slots and the uncle's colour.
     */
    lemma Climb(p: seq<int>)
      requires Linked() && ValidPath(t, p) && At(t, p).Br? && |p| > 0
      ensures ValidPath(t, p[..|p| - 1]) && At(t, p[..|p| - 1]).Br?
      ensures var x := At(t, p[..|p| - 1]);
        ParentRef(t, Nil, p) == x.node && x.node in nodes && nodes[x.node].red == x.red &&
        nodes[x.node].parent == ParentRef(t, Nil, p[..|p| - 1]) && (nodes[x.node].parent == Nil <==> |p| == 1)
      ensures |p| >= 2 ==>
        var q, e := p[..|p| - 2], p[|p| - 2];
        ValidPath(t, q) && At(t, q).Br? && (e == 0 || e == 1) && Child(At(t, q), e) == At(t, p[..|p| - 1]) &&
        var g := At(t, q);
        ParentRef(t, Nil, p[..|p| - 1]) == g.node && g.node in nodes && |nodes[g.node].children| == 2 &&
        nodes[g.node].children[e] == Child(g, e).node && nodes[g.node].children[1 - e] == Ref(Child(g, 1 - e)) &&
        nodes[g.node].children[1 - e] != Child(g, e).node &&
        (Child(g, 1 - e).Br? ==> Child(g, 1 - e).node in nodes && nodes[Child(g, 1 - e).node].red == Child(g, 1 - e).red)
    {
      FixUpStep(t, p);
      var pp := p[..|p| - 1];
      assert p == pp + [p[|p| - 1]];
      ParentRefSnoc(t, Nil, pp, p[|p| - 1]);
      Fields(pp);
      if |p| >= 2 {
        var q, e := p[..|p| - 2], p[|p| - 2];
        ParentRefSnoc(t, Nil, q, e);
        Fields(q);
        UniqueAt(t, q);
        if Child(At(t, q), 1 - e).Br? {
          PathSnoc(t, q, 1 - e);
          Fields(q + [1 - e]);
        }
      }
    }

    /** Every round of the insert fix-up falls into one of the cases `Round` tells apart. */
    lemma Step(p: seq<int>, x: int)
      requires Linked() && ValidPath(t, p) && At(t, p).Br? && |p| > 0 && x == ParentRef(t, Nil, p)
      ensures Round(t, nodes, p, x)
    {
      Climb(p);
      FixUpStep(t, p);
    }

    /** The parent of the node at `q` holds it in the slot of the last step of `q`, and only there. */
    lemma Slot(q: seq<int>)
      requires Linked() && ValidPath(t, q) && |q| > 0 && At(t, q).Br?
      ensures var g := ParentRef(t, Nil, q);
        g in nodes && (LastStep(q) == 0 || LastStep(q) == 1) && |nodes[g].children| == 2 &&
        nodes[g].children[LastStep(q)] == At(t, q).node && nodes[g].children[1 - LastStep(q)] != At(t, q).node
    {
      PathParent(t, q);
      var fq := q[..|q| - 1];
      assert q == fq + [LastStep(q)];
      ParentRefSnoc(t, Nil, fq, LastStep(q));
      Fields(fq);
      UniqueAt(t, fq);
    }

    /**
     * The neighbour getters of the node in slot `d` of the node at `q`: its parent, its
     * slot, its sibling, its grandparent and its nephews are the roots of the
     * corresponding subtrees.
     */
    lemma Neighbours(q: seq<int>, d: int)
      requires Linked() && ValidPath(t, q) && At(t, q).Br? && (d == 0 || d == 1) && Child(At(t, q), d).Br?
      ensures Closed()
      ensures var g, x := At(t, q), Child(At(t, q), d).node;
        x in nodes && nodes[x].parent == g.node &&
        IndexInParent(x) == d && Sibling(x) == Ref(Child(g, 1 - d)) && Grandparent(x) == ParentRef(t, Nil, q)
      ensures var g, x := At(t, q), Child(At(t, q), d).node;
        var s := Child(g, 1 - d);
        CloseNephew(x) == (if s.Leaf? then Nil else Ref(Child(s, d))) &&
        DistantNephew(x) == (if s.Leaf? then Nil else Ref(Child(s, 1 - d)))
    {
      LinkedClosed();
      Fields(q);
      UniqueAt(t, q);
      PathSnoc(t, q, d);
      ParentRefSnoc(t, Nil, q, d);
      Fields(q + [d]);
      PathSnoc(t, q, 1 - d);
      if Child(At(t, q), 1 - d).Br? {
        Fields(q + [1 - d]);
      }
      if |q| > 0 {
        PathParent(t, q);
      }
    }

    /** The uncle getter of the node in slot `d` of the node in slot `e` of the node at `q`. */
    lemma UncleOf(q: seq<int>, e: int, d: int)
      requires Linked() && ValidPath(t, q) && At(t, q).Br? && (e == 0 || e == 1) && (d == 0 || d == 1)
      requires Child(At(t, q), e).Br? && Child(Child(At(t, q), e), d).Br?
      ensures Closed()
      ensures var g, x := At(t, q), Child(Child(At(t, q), e), d).node;
        x in nodes && nodes[x].parent == Child(g, e).node && Uncle(x) == Ref(Child(g, 1 - e))
    {
      LinkedClosed();
      Fields(q);
      UniqueAt(t, q);
      PathSnoc(t, q, e);
      ParentRefSnoc(t, Nil, q, e);
      Fields(q + [e]);
      PathSnoc(t, q + [e], d);
      ParentRefSnoc(t, Nil, q + [e], d);
      assert q + [e] + [d] == q + [e, d];
      Fields(q + [e, d]);
    }
  }
}
