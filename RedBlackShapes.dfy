/**
 * The red-black tree as a value: each node carries its key, its colour and the object
 * that stores it, and its two subtrees are numbered 0 (left) and 1 (right), so that the
 * direction arithmetic `1 - d` of the insert fix-up reads as it does in the tree class.
 * A path is a list of such directions from the root. Everything the tree class does
 * to its nodes is mirrored here: the search path of an insert, a rotation, and each
 * case of the fix-up loop; the red-black properties are proved about these functions.
 */
module RedBlackShapes {

  datatype Tree<N> = Leaf | Br(left: Tree<N>, node: N, key: int, red: bool, right: Tree<N>)

  /** Child `d` of a node: 0 is the left one, anything else the right one. */
  function Child<N>(t: Tree<N>, d: int): Tree<N>
    requires t.Br?
  {
    if d == 0 then t.left else t.right
  }

  /** The node `t` with child `d` replaced by `c`. */
  function WithChild<N>(t: Tree<N>, d: int, c: Tree<N>): (r: Tree<N>)
    requires t.Br? && (d == 0 || d == 1)
    ensures r.Br? && r.node == t.node && r.key == t.key && r.red == t.red
    ensures Child(r, d) == c && Child(r, 1 - d) == Child(t, 1 - d)
  {
    if d == 0 then t.(left := c) else t.(right := c)
  }

  predicate IsRed<N>(t: Tree<N>) {
    t.Br? && t.red
  }

  // Paths.

  /** Every step of `p` is 0 or 1 and leaves a node. */
  ghost predicate ValidPath<N>(t: Tree<N>, p: seq<int>)
    decreases |p|
  {
    |p| == 0 || (t.Br? && (p[0] == 0 || p[0] == 1) && ValidPath(Child(t, p[0]), p[1..]))
  }

  /** The subtree at the end of `p`. */
  ghost function At<N>(t: Tree<N>, p: seq<int>): Tree<N>
    requires ValidPath(t, p)
    decreases |p|
  {
    if |p| == 0 then t else At(Child(t, p[0]), p[1..])
  }

  /** `t` with the subtree at the end of `p` replaced by `s`. */
  ghost function Replace<N>(t: Tree<N>, p: seq<int>, s: Tree<N>): Tree<N>
    requires ValidPath(t, p)
    decreases |p|
  {
    if |p| == 0 then s else WithChild(t, p[0], Replace(Child(t, p[0]), p[1..], s))
  }

  /** A path that is not empty ends in a step from a node, the parent of its end. */
  lemma {:induction false} PathParent<N>(t: Tree<N>, p: seq<int>)
    requires ValidPath(t, p) && |p| > 0
    ensures ValidPath(t, p[..|p| - 1]) && At(t, p[..|p| - 1]).Br?
    ensures p[|p| - 1] == 0 || p[|p| - 1] == 1
    ensures At(t, p) == Child(At(t, p[..|p| - 1]), p[|p| - 1])
    decreases |p|
  {
    if |p| > 1 {
      assert p[..|p| - 1][1..] == p[1..][..|p| - 2];
      PathParent(Child(t, p[0]), p[1..]);
    }
  }

  /** One more step below the end of a path. */
  lemma {:induction false} PathSnoc<N>(t: Tree<N>, p: seq<int>, d: int)
    requires ValidPath(t, p) && At(t, p).Br? && (d == 0 || d == 1)
    ensures ValidPath(t, p + [d]) && At(t, p + [d]) == Child(At(t, p), d)
    decreases |p|
  {
    if |p| > 0 {
      assert (p + [d])[1..] == p[1..] + [d];
      PathSnoc(Child(t, p[0]), p[1..], d);
    }
  }

  /** A path followed by another: the second starts where the first ends. */
  lemma {:induction false} PathConcat<N>(t: Tree<N>, p: seq<int>, r: seq<int>)
    requires ValidPath(t, p + r)
    ensures ValidPath(t, p) && ValidPath(At(t, p), r) && At(t, p + r) == At(At(t, p), r)
    decreases |p|
  {
    if |p| == 0 {
      assert p + r == r;
    } else {
      assert (p + r)[1..] == p[1..] + r;
      PathConcat(Child(t, p[0]), p[1..], r);
    }
  }

  /** Replacing below the end of `p` replaces within the subtree at `p`. */
  lemma {:induction false} ReplaceConcat<N>(t: Tree<N>, p: seq<int>, r: seq<int>, s: Tree<N>)
    requires ValidPath(t, p + r)
    ensures ValidPath(t, p) && ValidPath(At(t, p), r)
    ensures Replace(t, p + r, s) == Replace(t, p, Replace(At(t, p), r, s))
    decreases |p|
  {
    PathConcat(t, p, r);
    if |p| == 0 {
      assert p + r == r;
    } else {
      assert (p + r)[1..] == p[1..] + r;
      ReplaceConcat(Child(t, p[0]), p[1..], r, s);
    }
  }

  /** After a replacement the path still leads to the new subtree. */
  lemma {:induction false} AtReplace<N>(t: Tree<N>, p: seq<int>, s: Tree<N>)
    requires ValidPath(t, p)
    ensures ValidPath(Replace(t, p, s), p) && At(Replace(t, p, s), p) == s
    decreases |p|
  {
    if |p| > 0 {
      AtReplace(Child(t, p[0]), p[1..], s);
    }
  }

  /** Replacing strictly below the root keeps the root's key, colour and object. */
  lemma ReplaceRoot<N>(t: Tree<N>, p: seq<int>, s: Tree<N>)
    requires ValidPath(t, p) && |p| > 0
    ensures Replace(t, p, s).Br? && Replace(t, p, s).node == t.node
    ensures Replace(t, p, s).key == t.key && Replace(t, p, s).red == t.red
  {
  }

  lemma {:induction false} ReplaceSelf<N>(t: Tree<N>, p: seq<int>)
    requires ValidPath(t, p)
    ensures Replace(t, p, At(t, p)) == t
    decreases |p|
  {
    if |p| > 0 {
      ReplaceSelf(Child(t, p[0]), p[1..]);
      if p[0] == 0 {
        assert t.(left := t.left) == t;
      } else {
        assert t.(right := t.right) == t;
      }
    }
  }

  // Keys, nodes and colours.

  /** The keys in order: left subtree, node, right subtree. */
  ghost function Keys<N>(t: Tree<N>): seq<int> {
    match t
    case Leaf => []
    case Br(l, _, k, _, r) => Keys(l) + [k] + Keys(r)
  }

  ghost predicate Sorted(s: seq<int>) {
    forall i, j :: 0 <= i < j < |s| ==> s[i] < s[j]
  }

  /** The search-tree order: the keys in order are strictly increasing. */
  ghost predicate Ordered<N>(t: Tree<N>) {
    Sorted(Keys(t))
  }

  ghost function Nodes<N>(t: Tree<N>): set<N> {
    match t
    case Leaf => {}
    case Br(l, n, _, _, r) => Nodes(l) + {n} + Nodes(r)
  }

  /** No object stores two nodes. */
  ghost predicate Unique<N>(t: Tree<N>) {
    match t
    case Leaf => true
    case Br(l, n, _, _, r) =>
      n !in Nodes(l) && n !in Nodes(r) && Nodes(l) !! Nodes(r) && Unique(l) && Unique(r)
  }

  /** The black nodes on the leftmost path below and including `t`. */
  ghost function BH<N>(t: Tree<N>): nat {
    match t
    case Leaf => 0
    case Br(l, _, _, red, _) => BH(l) + (if red then 0 else 1)
  }

  /** Both subtrees of every node hold the same number of black nodes on each path. */
  ghost predicate Balanced<N>(t: Tree<N>) {
    match t
    case Leaf => true
    case Br(l, _, _, _, r) => BH(l) == BH(r) && Balanced(l) && Balanced(r)
  }

  /** No red node has a red child (the root may be red). */
  ghost predicate RedOK<N>(t: Tree<N>) {
    match t
    case Leaf => true
    case Br(l, _, _, red, r) => (red ==> !IsRed(l) && !IsRed(r)) && RedOK(l) && RedOK(r)
  }

  ghost predicate RedBlack<N>(t: Tree<N>) {
    Balanced(t) && RedOK(t)
  }

  /** The black nodes passed on the way down `p`. */
  ghost function BlackOn<N>(t: Tree<N>, p: seq<int>): nat
    requires ValidPath(t, p)
    decreases |p|
  {
    if |p| == 0 then 0 else (if t.red then 0 else 1) + BlackOn(Child(t, p[0]), p[1..])
  }

  /** In a balanced tree every path from the root to an empty subtree passes the same number of black nodes. */
  lemma {:induction false} BlackOnLeafPath<N>(t: Tree<N>, p: seq<int>)
    requires Balanced(t) && ValidPath(t, p) && At(t, p).Leaf?
    ensures BlackOn(t, p) == BH(t)
    decreases |p|
  {
    if |p| > 0 {
      BlackOnLeafPath(Child(t, p[0]), p[1..]);
    }
  }

  /**
   * The red rule everywhere except between the node at the end of `p` and its parent:
   * the state of the insert fix-up, whose current node is the one at `p`.
   */
  ghost predicate RedOKBut<N>(t: Tree<N>, p: seq<int>)
    requires ValidPath(t, p)
    decreases |p|
  {
    if |p| == 0 then RedOK(t)
    else
      var c, o := Child(t, p[0]), Child(t, 1 - p[0]);
      RedOK(o) && (t.red ==> !IsRed(o)) &&
      if |p| == 1 then RedOK(c) else (t.red ==> !IsRed(c)) && RedOKBut(c, p[1..])
  }

  // Facts that survive replacing one subtree by another of the same kind.

  lemma {:induction false} KeysReplace<N>(t: Tree<N>, p: seq<int>, s: Tree<N>)
    requires ValidPath(t, p) && Keys(s) == Keys(At(t, p))
    ensures Keys(Replace(t, p, s)) == Keys(t)
    decreases |p|
  {
    if |p| > 0 {
      KeysReplace(Child(t, p[0]), p[1..], s);
    }
  }

  lemma {:induction false} NodesReplace<N>(t: Tree<N>, p: seq<int>, s: Tree<N>)
    requires ValidPath(t, p) && Nodes(s) == Nodes(At(t, p))
    ensures Nodes(Replace(t, p, s)) == Nodes(t)
    ensures Unique(t) && Unique(s) ==> Unique(Replace(t, p, s))
    decreases |p|
  {
    if |p| > 0 {
      NodesReplace(Child(t, p[0]), p[1..], s);
    }
  }

  lemma {:induction false} BalancedAt<N>(t: Tree<N>, p: seq<int>)
    requires ValidPath(t, p) && Balanced(t)
    ensures Balanced(At(t, p))
    decreases |p|
  {
    if |p| > 0 {
      BalancedAt(Child(t, p[0]), p[1..]);
    }
  }

  lemma {:induction false} BalancedReplace<N>(t: Tree<N>, p: seq<int>, s: Tree<N>)
    requires ValidPath(t, p) && Balanced(t) && Balanced(s) && BH(s) == BH(At(t, p))
    ensures Balanced(Replace(t, p, s)) && BH(Replace(t, p, s)) == BH(t)
    decreases |p|
  {
    if |p| > 0 {
      BalancedReplace(Child(t, p[0]), p[1..], s);
    }
  }

  /** The part of the fix-up state that lies below the end of `q`. */
  lemma {:induction false} RedOKButAt<N>(t: Tree<N>, q: seq<int>, r: seq<int>)
    requires ValidPath(t, q + r) && |r| > 0 && RedOKBut(t, q + r)
    ensures ValidPath(t, q) && ValidPath(At(t, q), r) && RedOKBut(At(t, q), r)
    decreases |q|
  {
    PathConcat(t, q, r);
    if |q| == 0 {
      assert q + r == r;
    } else {
      assert (q + r)[1..] == q[1..] + r;
      RedOKButAt(Child(t, q[0]), q[1..], r);
    }
  }

  /** A subtree that keeps the red rule, put at `q`, moves the one possible violation up to `q`. */
  lemma {:induction false} RedOKButLift<N>(t: Tree<N>, q: seq<int>, r: seq<int>, s: Tree<N>)
    requires ValidPath(t, q + r) && |r| > 0 && RedOKBut(t, q + r) && RedOK(s)
    ensures ValidPath(t, q) && ValidPath(Replace(t, q, s), q) && RedOKBut(Replace(t, q, s), q)
    decreases |q|
  {
    PathConcat(t, q, r);
    if |q| > 0 {
      assert (q + r)[1..] == q[1..] + r;
      var c := Child(t, q[0]);
      RedOKButLift(c, q[1..], r, s);
      AtReplace(t, q, s);
      if |q| > 1 {
        ReplaceRoot(c, q[1..], s);
      }
    }
  }

  /** A black subtree that keeps the red rule, put at `q`, removes the violation. */
  lemma {:induction false} RedOKClose<N>(t: Tree<N>, q: seq<int>, r: seq<int>, s: Tree<N>)
    requires ValidPath(t, q + r) && |r| > 0 && RedOKBut(t, q + r) && RedOK(s) && !IsRed(s)
    ensures ValidPath(t, q) && RedOK(Replace(t, q, s))
    decreases |q|
  {
    PathConcat(t, q, r);
    if |q| > 0 {
      assert (q + r)[1..] == q[1..] + r;
      var c := Child(t, q[0]);
      RedOKClose(c, q[1..], r, s);
      if |q| > 1 {
        ReplaceRoot(c, q[1..], s);
      }
    }
  }

  /** A red node whose parent is black: nothing breaks the red rule. */
  lemma ParentBlack<N>(t: Tree<N>, q: seq<int>, f: int)
    requires ValidPath(t, q + [f]) && ValidPath(t, q) && RedOKBut(t, q + [f]) && At(t, q).Br? && !At(t, q).red
    ensures RedOK(t)
  {
    RedOKButAt(t, q, [f]);
    PathConcat(t, q, [f]);
    ReplaceSelf(t, q);
    RedOKClose(t, q, [f], At(t, q));
  }

  /** Recolouring a node changes neither its keys, its nodes nor the black heights below it. */
  lemma Recolour<N>(t: Tree<N>, red: bool)
    requires t.Br?
    ensures Keys(t.(red := red)) == Keys(t) && Nodes(t.(red := red)) == Nodes(t)
    ensures Unique(t.(red := red)) == Unique(t) && Balanced(t.(red := red)) == Balanced(t)
  {
  }

  lemma {:induction false} UniqueAt<N>(t: Tree<N>, p: seq<int>)
    requires ValidPath(t, p) && Unique(t)
    ensures Unique(At(t, p))
    decreases |p|
  {
    if |p| > 0 {
      UniqueAt(Child(t, p[0]), p[1..]);
    }
  }

  // The insert search.

  /**
   * The search path for `k`: down to the left below larger keys and to the right
   * below smaller ones, ending at the node holding `k` or at the empty subtree
   * where `k` belongs.
   */
  ghost function Descend<N>(t: Tree<N>, k: int): (p: seq<int>)
    ensures ValidPath(t, p)
  {
    if t.Leaf? || t.key == k then []
    else
      var d := if t.key > k then 0 else 1;
      var rest := Descend(Child(t, d), k);
      assert ([d] + rest)[1..] == rest;
      [d] + rest
  }

  lemma SortedSplit(a: seq<int>, k: int, b: seq<int>)
    requires Sorted(a + [k] + b)
    ensures Sorted(a) && Sorted(b)
    ensures forall x :: x in a ==> x < k
    ensures forall x :: x in b ==> k < x
  {
    var s := a + [k] + b;
    forall x | x in a
      ensures x < k
    {
      var i :| 0 <= i < |a| && a[i] == x;
      assert s[i] == x && s[|a|] == k;
    }
    forall x | x in b
      ensures k < x
    {
      var i :| 0 <= i < |b| && b[i] == x;
      assert s[|a| + 1 + i] == x && s[|a|] == k;
    }
    forall i, j | 0 <= i < j < |b|
      ensures b[i] < b[j]
    {
      assert s[|a| + 1 + i] == b[i] && s[|a| + 1 + j] == b[j];
    }
    forall i, j | 0 <= i < j < |a|
      ensures a[i] < a[j]
    {
      assert s[i] == a[i] && s[j] == a[j];
    }
  }

  lemma SortedJoin(a: seq<int>, k: int, b: seq<int>)
    requires Sorted(a) && Sorted(b)
    requires forall x :: x in a ==> x < k
    requires forall x :: x in b ==> k < x
    ensures Sorted(a + [k] + b)
  {
    var s := a + [k] + b;
    forall i, j | 0 <= i < j < |s|
      ensures s[i] < s[j]
    {
      if j < |a| {
      } else if i < |a| {
        assert a[i] in a;
        if j > |a| {
          assert s[j] == b[j - |a| - 1] && b[j - |a| - 1] in b;
        }
      } else if i == |a| {
        assert s[j] == b[j - |a| - 1] && b[j - |a| - 1] in b;
      } else {
        assert s[i] == b[i - |a| - 1] && s[j] == b[j - |a| - 1];
      }
    }
  }

  /** One step of the search: a key other than the node's is in the tree exactly when it is in the side searched. */
  lemma SearchStep<N>(t: Tree<N>, k: int)
    requires Ordered(t) && t.Br? && t.key != k
    ensures Ordered(Child(t, if t.key > k then 0 else 1))
    ensures k in Keys(t) <==> k in Keys(Child(t, if t.key > k then 0 else 1))
  {
    SortedSplit(Keys(t.left), t.key, Keys(t.right));
  }

  /** The search ends at the node holding `k`, or at an empty subtree exactly when `k` is absent. */
  lemma {:induction false} DescendFinds<N>(t: Tree<N>, k: int)
    requires Ordered(t)
    ensures At(t, Descend(t, k)).Leaf? <==> k !in Keys(t)
    ensures At(t, Descend(t, k)).Br? ==> At(t, Descend(t, k)).key == k
  {
    if t.Br? && t.key != k {
      var d := if t.key > k then 0 else 1;
      SearchStep(t, k);
      DescendFinds(Child(t, d), k);
    }
  }

  /** The search path below a node that does not hold `k` is one step and the search path of that side. */
  lemma DescendStep<N>(t: Tree<N>, k: int, s: Tree<N>)
    requires t.Br? && t.key != k
    ensures var d := if t.key > k then 0 else 1;
      var c := Child(t, d);
      Descend(t, k) == [d] + Descend(c, k) && At(t, Descend(t, k)) == At(c, Descend(c, k)) &&
      Replace(t, Descend(t, k), s) == WithChild(t, d, Replace(c, Descend(c, k), s))
  {
    var d := if t.key > k then 0 else 1;
    assert ([d] + Descend(Child(t, d), k))[1..] == Descend(Child(t, d), k);
  }

  /** A search that has reached the node at `p`, not holding `k`, goes on one step down. */
  lemma DescendFrom<N>(t: Tree<N>, k: int, p: seq<int>, d: int)
    requires ValidPath(t, p) && At(t, p).Br? && At(t, p).key != k && d == (if At(t, p).key > k then 0 else 1)
    requires Descend(t, k) == p + Descend(At(t, p), k)
    ensures ValidPath(t, p + [d]) && At(t, p + [d]) == Child(At(t, p), d)
    ensures Descend(t, k) == (p + [d]) + Descend(At(t, p + [d]), k)
  {
    PathSnoc(t, p, d);
    DescendStep(At(t, p), k, Leaf);
    AppendAssoc(p, [d], Descend(Child(At(t, p), d), k));
  }

  lemma AppendAssoc<T>(a: seq<T>, b: seq<T>, c: seq<T>)
    ensures a + (b + c) == (a + b) + c
  {
  }

  /** The keys counted with multiplicity. */
  ghost function KeyBag<N>(t: Tree<N>): multiset<int> {
    match t
    case Leaf => multiset{}
    case Br(l, _, k, _, r) => KeyBag(l) + multiset{k} + KeyBag(r)
  }

  lemma {:induction false} KeyBagKeys<N>(t: Tree<N>)
    ensures KeyBag(t) == multiset(Keys(t))
  {
    if t.Br? {
      KeyBagKeys(t.left);
      KeyBagKeys(t.right);
    }
  }

  /** What is put in place of an empty subtree joins the keys of the tree. */
  lemma {:induction false} KeysFill<N>(t: Tree<N>, p: seq<int>, s: Tree<N>)
    requires ValidPath(t, p) && At(t, p).Leaf?
    ensures multiset(Keys(Replace(t, p, s))) == multiset(Keys(t)) + multiset(Keys(s))
  {
    KeyBagFill(t, p, s);
    KeyBagKeys(t);
    KeyBagKeys(s);
    KeyBagKeys(Replace(t, p, s));
  }

  lemma FillMember<N>(t: Tree<N>, p: seq<int>, s: Tree<N>, x: int)
    requires ValidPath(t, p) && At(t, p).Leaf? && x in Keys(Replace(t, p, s))
    ensures x in Keys(t) || x in Keys(s)
  {
    KeysFill(t, p, s);
    assert x in multiset(Keys(Replace(t, p, s)));
  }

  lemma {:induction false} KeyBagFill<N>(t: Tree<N>, p: seq<int>, s: Tree<N>)
    requires ValidPath(t, p) && At(t, p).Leaf?
    ensures KeyBag(Replace(t, p, s)) == KeyBag(t) + KeyBag(s)
    decreases |p|
  {
    if |p| > 0 {
      KeyBagFill(Child(t, p[0]), p[1..], s);
    }
  }

  /** Putting `k` at the end of its search path keeps the keys in order. */
  lemma {:induction false} DescendInsertOrdered<N>(t: Tree<N>, k: int, s: Tree<N>)
    requires Ordered(t) && k !in Keys(t) && Keys(s) == [k]
    ensures Ordered(Replace(t, Descend(t, k), s))
  {
    if t.Br? {
      var d := if t.key > k then 0 else 1;
      var c := Child(t, d);
      SearchStep(t, k);
      SortedSplit(Keys(t.left), t.key, Keys(t.right));
      DescendInsertOrdered(c, k, s);
      DescendFinds(c, k);
      DescendStep(t, k, s);
      var c' := Replace(c, Descend(c, k), s);
      forall x | x in Keys(c')
        ensures x in Keys(c) || x == k
      {
        FillMember(c, Descend(c, k), s, x);
      }
      if d == 0 {
        SortedJoin(Keys(c'), t.key, Keys(t.right));
        assert Keys(WithChild(t, d, c')) == Keys(c') + [t.key] + Keys(t.right);
      } else {
        SortedJoin(Keys(t.left), t.key, Keys(c'));
        assert Keys(WithChild(t, d, c')) == Keys(t.left) + [t.key] + Keys(c');
      }
    }
  }

  /** A new node at the end of the search path is new to the tree. */
  lemma {:induction false} DescendInsertNodes<N>(t: Tree<N>, k: int, s: Tree<N>)
    requires At(t, Descend(t, k)).Leaf?
    ensures Nodes(Replace(t, Descend(t, k), s)) == Nodes(t) + Nodes(s)
    ensures Unique(t) && Unique(s) && Nodes(s) !! Nodes(t) ==> Unique(Replace(t, Descend(t, k), s))
  {
    if t.Br? {
      var d := if t.key > k then 0 else 1;
      DescendInsertNodes(Child(t, d), k, s);
    }
  }

  // Rotation.

  /** Rotation of `t` in direction `d`: its child `1 - d` takes its place, `t` becomes that child's child `d`. */
  ghost function Rot<N>(t: Tree<N>, d: int): Tree<N>
    requires t.Br? && (d == 0 || d == 1) && Child(t, 1 - d).Br?
  {
    var s := Child(t, 1 - d);
    WithChild(s, d, WithChild(t, 1 - d, Child(s, d)))
  }

  /** A rotation keeps the keys in order, the nodes, and their distinctness. */
  lemma RotKeeps<N>(t: Tree<N>, d: int)
    requires t.Br? && (d == 0 || d == 1) && Child(t, 1 - d).Br?
    ensures Keys(Rot(t, d)) == Keys(t) && Nodes(Rot(t, d)) == Nodes(t)
    ensures Unique(t) ==> Unique(Rot(t, d))
  {
    var s := Child(t, 1 - d);
    if d == 0 {
      var inner := Br(t.left, t.node, t.key, t.red, s.left);
      assert Rot(t, d) == Br(inner, s.node, s.key, s.red, s.right);
      assert Keys(Rot(t, d)) == (Keys(t.left) + [t.key] + Keys(s.left)) + [s.key] + Keys(s.right);
      if Unique(t) {
        assert Unique(s) && Unique(inner);
      }
    } else {
      var inner := Br(s.right, t.node, t.key, t.red, t.right);
      assert Rot(t, d) == Br(s.left, s.node, s.key, s.red, inner);
      assert Keys(Rot(t, d)) == Keys(s.left) + [s.key] + (Keys(s.right) + [t.key] + Keys(t.right));
      if Unique(t) {
        assert Unique(s) && Unique(inner);
      }
    }
  }

  /** The tree after the rotation at the end of `p`. */
  ghost function RotateAt<N>(t: Tree<N>, p: seq<int>, d: int): Tree<N>
    requires ValidPath(t, p) && At(t, p).Br? && (d == 0 || d == 1) && Child(At(t, p), 1 - d).Br?
  {
    Replace(t, p, Rot(At(t, p), d))
  }

  /** A rotation anywhere keeps the keys in order, the nodes, and their distinctness. */
  lemma RotateAtKeeps<N>(t: Tree<N>, p: seq<int>, d: int)
    requires ValidPath(t, p) && At(t, p).Br? && (d == 0 || d == 1) && Child(At(t, p), 1 - d).Br?
    ensures Keys(RotateAt(t, p, d)) == Keys(t) && Nodes(RotateAt(t, p, d)) == Nodes(t)
    ensures Unique(t) ==> Unique(RotateAt(t, p, d))
  {
    RotKeeps(At(t, p), d);
    KeysReplace(t, p, Rot(At(t, p), d));
    NodesReplace(t, p, Rot(At(t, p), d));
  }

  // The fix-up cases, at the grandparent `g` of the current node.

  /** Case 2: the red parent and the red uncle turn black, the grandparent red. */
  ghost function Flip<N>(g: Tree<N>): Tree<N>
    requires g.Br? && g.left.Br? && g.right.Br?
  {
    g.(red := true, left := g.left.(red := false), right := g.right.(red := false))
  }

  /**
   * Cases 5 and 6, the parent on side `e` of `g` and the current node on side `f` of
   * the parent: an inner node is first rotated up over the parent; then the grandparent
   * is rotated down to side `1 - e`, the node that took its place turns black and the
   * grandparent red.
   */
  ghost function Restructure<N>(g: Tree<N>, e: int, f: int): Tree<N>
    requires g.Br? && (e == 0 || e == 1) && (f == 0 || f == 1)
    requires Child(g, e).Br? && Child(Child(g, e), f).Br?
  {
    var g1 := if f == 1 - e then WithChild(g, e, Rot(Child(g, e), e)) else g;
    var top := Rot(g1, 1 - e);
    WithChild(top.(red := false), 1 - e, Child(top, 1 - e).(red := true))
  }

  lemma FlipKeeps<N>(g: Tree<N>)
    requires g.Br? && g.left.Br? && g.right.Br?
    ensures Keys(Flip(g)) == Keys(g) && Nodes(Flip(g)) == Nodes(g)
    ensures Unique(g) ==> Unique(Flip(g))
  {
    Recolour(g.left, false);
    Recolour(g.right, false);
  }

  lemma RestructureKeeps<N>(g: Tree<N>, e: int, f: int)
    requires g.Br? && (e == 0 || e == 1) && (f == 0 || f == 1)
    requires Child(g, e).Br? && Child(Child(g, e), f).Br?
    ensures Keys(Restructure(g, e, f)) == Keys(g) && Nodes(Restructure(g, e, f)) == Nodes(g)
    ensures Unique(g) ==> Unique(Restructure(g, e, f))
  {
    var g1 := if f == 1 - e then WithChild(g, e, Rot(Child(g, e), e)) else g;
    if f == 1 - e {
      RotKeeps(Child(g, e), e);
      assert Keys(g1) == Keys(g) && Nodes(g1) == Nodes(g);
    }
    RotKeeps(g1, 1 - e);
  }

  /** Case 2 keeps the black heights and leaves at most a violation above the grandparent. */
  lemma FlipRedBlack<N>(g: Tree<N>, e: int, f: int)
    requires g.Br? && (e == 0 || e == 1) && ValidPath(g, [e, f]) && RedOKBut(g, [e, f]) && Balanced(g)
    requires IsRed(Child(g, e)) && IsRed(Child(g, 1 - e))
    ensures !g.red && g.left.Br? && g.right.Br?
    ensures RedOK(Flip(g)) && Balanced(Flip(g)) && BH(Flip(g)) == BH(g) && IsRed(Flip(g))
  {
    assert [e, f][1..] == [f];
  }

  /** Cases 5 and 6 give a black subtree of the same black height that keeps the red rule. */
  lemma RestructureRedBlack<N>(g: Tree<N>, e: int, f: int)
    requires g.Br? && (e == 0 || e == 1) && (f == 0 || f == 1) && ValidPath(g, [e, f])
    requires RedOKBut(g, [e, f]) && Balanced(g)
    requires IsRed(Child(g, e)) && !IsRed(Child(g, 1 - e)) && IsRed(Child(Child(g, e), f))
    ensures RedOK(Restructure(g, e, f)) && !IsRed(Restructure(g, e, f))
    ensures Balanced(Restructure(g, e, f)) && BH(Restructure(g, e, f)) == BH(g)
  {
    assert [e, f][1..] == [f];
    var p, u := Child(g, e), Child(g, 1 - e);
    var x := Child(p, f);
    assert RedOK(x) && RedOK(Child(p, 1 - f)) && !IsRed(Child(p, 1 - f)) && RedOK(u);
    assert !g.red && BH(p) == BH(u) && Balanced(p) && Balanced(u);
    if e == 0 && f == 0 {
      assert Restructure(g, e, f) == Br(x, p.node, p.key, false, Br(p.right, g.node, g.key, true, u));
    } else if e == 0 {
      assert Balanced(x) && BH(x.left) == BH(x.right) && BH(x) == BH(x.left) && BH(p) == BH(p.left);
      assert Restructure(g, e, f)
        == Br(Br(p.left, p.node, p.key, p.red, x.left), x.node, x.key, false, Br(x.right, g.node, g.key, true, u));
    } else if f == 1 {
      assert Restructure(g, e, f) == Br(Br(u, g.node, g.key, true, p.left), p.node, p.key, false, x);
    } else {
      assert Balanced(x) && BH(x.left) == BH(x.right) && BH(x) == BH(x.left) && BH(p) == BH(p.left);
      assert Restructure(g, e, f)
        == Br(Br(u, g.node, g.key, true, x.left), x.node, x.key, false, Br(x.right, p.node, p.key, p.red, p.right));
    }
  }

  /**
   * The insert fix-up from the red node at `p`, case by case as the loop runs: done at
   * the root (case 3) or below a black parent (case 1); a red root parent turns black
   * (case 4); a red uncle flips the colours and goes on from the grandparent (case 2);
   * a black uncle restructures at the grandparent (cases 5 and 6).
   */
  ghost function FixUp<N>(t: Tree<N>, p: seq<int>): Tree<N>
    requires ValidPath(t, p) && At(t, p).Br?
    decreases |p|
  {
    if |p| == 0 then t
    else
      PathParent(t, p);
      var pp := p[..|p| - 1];
      if !At(t, pp).red then t
      else if |pp| == 0 then t.(red := false)
      else
        PathParent(t, pp);
        var q, e, f := pp[..|pp| - 1], pp[|pp| - 1], p[|p| - 1];
        var g := At(t, q);
        if IsRed(Child(g, 1 - e)) then
          var t' := Replace(t, q, Flip(g));
          AtReplace(t, q, Flip(g));
          FixUp(t', q)
        else
          Replace(t, q, Restructure(g, e, f))
  }

  /**
   * One step of the fix-up from the red node at `p`, told by the parent at `p` without its
   * last step and, two steps up, the grandparent at `q` with the parent in slot `e`.
   */
  lemma FixUpStep<N>(t: Tree<N>, p: seq<int>)
    requires ValidPath(t, p) && At(t, p).Br? && |p| > 0
    ensures ValidPath(t, p[..|p| - 1]) && At(t, p[..|p| - 1]).Br? && (p[|p| - 1] == 0 || p[|p| - 1] == 1)
    ensures At(t, p) == Child(At(t, p[..|p| - 1]), p[|p| - 1])
    ensures !At(t, p[..|p| - 1]).red ==> FixUp(t, p) == t
    ensures At(t, p[..|p| - 1]).red && |p| == 1 ==> FixUp(t, p) == t.(red := false)
    ensures |p| >= 2 ==>
      var q, e := p[..|p| - 2], p[|p| - 2];
      ValidPath(t, q) && At(t, q).Br? && (e == 0 || e == 1) && p[..|p| - 1] == q + [e] &&
      At(t, p[..|p| - 1]) == Child(At(t, q), e) &&
      (Child(At(t, q), e).red && IsRed(Child(At(t, q), 1 - e)) ==>
        ValidPath(Replace(t, q, Flip(At(t, q))), q) && At(Replace(t, q, Flip(At(t, q))), q) == Flip(At(t, q)) &&
        FixUp(t, p) == FixUp(Replace(t, q, Flip(At(t, q))), q)) &&
      (Child(At(t, q), e).red && !IsRed(Child(At(t, q), 1 - e)) ==>
        FixUp(t, p) == Replace(t, q, Restructure(At(t, q), e, p[|p| - 1])))
  {
    PathParent(t, p);
    if |p| >= 2 {
      var pp := p[..|p| - 1];
      PathParent(t, pp);
      SplitPath(p);
      var q := p[..|p| - 2];
      if IsRed(Child(At(t, q), 1 - pp[|pp| - 1])) {
        AtReplace(t, q, Flip(At(t, q)));
      }
    }
  }

  /** The path `p` as the grandparent's path and the last two steps. */
  lemma SplitPath(p: seq<int>)
    requires |p| >= 2
    ensures p == p[..|p| - 2] + [p[|p| - 2], p[|p| - 1]]
    ensures p[..|p| - 1] == p[..|p| - 2] + [p[|p| - 2]]
    ensures p[..|p| - 1][..|p| - 2] == p[..|p| - 2]
  {
  }

  /** The fix-up only recolours and rotates: same keys in order, same nodes. */
  lemma {:induction false} FixUpKeeps<N>(t: Tree<N>, p: seq<int>)
    requires ValidPath(t, p) && At(t, p).Br?
    ensures Keys(FixUp(t, p)) == Keys(t) && Nodes(FixUp(t, p)) == Nodes(t)
    ensures Unique(t) ==> Unique(FixUp(t, p))
    decreases |p|
  {
    if |p| > 0 {
      PathParent(t, p);
      var pp := p[..|p| - 1];
      if At(t, pp).red && |pp| > 0 {
        PathParent(t, pp);
        var q, e, f := pp[..|pp| - 1], pp[|pp| - 1], p[|p| - 1];
        var g := At(t, q);
        if Unique(t) {
          UniqueAt(t, q);
        }
        if IsRed(Child(g, 1 - e)) {
          FlipKeeps(g);
          KeysReplace(t, q, Flip(g));
          NodesReplace(t, q, Flip(g));
          AtReplace(t, q, Flip(g));
          FixUpKeeps(Replace(t, q, Flip(g)), q);
        } else {
          RestructureKeeps(g, e, f);
          KeysReplace(t, q, Restructure(g, e, f));
          NodesReplace(t, q, Restructure(g, e, f));
        }
      }
    }
  }

  /** From a balanced tree whose only possible violation is the red node at `p`, the fix-up gives a red-black tree. */
  lemma {:induction false} FixUpRedBlack<N>(t: Tree<N>, p: seq<int>)
    requires ValidPath(t, p) && IsRed(At(t, p)) && Balanced(t) && RedOKBut(t, p)
    ensures RedBlack(FixUp(t, p))
    decreases |p|
  {
    if |p| > 0 {
      PathParent(t, p);
      var pp := p[..|p| - 1];
      var f := p[|p| - 1];
      assert p == pp + [f];
      if !At(t, pp).red {
        ParentBlack(t, pp, f);
      } else if |pp| > 0 {
        PathParent(t, pp);
        var q, e := pp[..|pp| - 1], pp[|pp| - 1];
        SplitPath(p);
        assert p == q + [e, f];
        var g := At(t, q);
        RedOKButAt(t, q, [e, f]);
        PathConcat(t, q, [e, f]);
        BalancedAt(t, q);
        if IsRed(Child(g, 1 - e)) {
          FlipRedBlack(g, e, f);
          BalancedReplace(t, q, Flip(g));
          RedOKButLift(t, q, [e, f], Flip(g));
          AtReplace(t, q, Flip(g));
          FixUpRedBlack(Replace(t, q, Flip(g)), q);
        } else {
          RestructureRedBlack(g, e, f);
          BalancedReplace(t, q, Restructure(g, e, f));
          RedOKClose(t, q, [e, f], Restructure(g, e, f));
        }
      }
    }
  }

  /** A red-rule-keeping subtree put into a red-rule-keeping tree: the only possible violation is at its position. */
  lemma {:induction false} RedOKButSeed<N>(t: Tree<N>, p: seq<int>, s: Tree<N>)
    requires ValidPath(t, p) && RedOK(t) && RedOK(s)
    ensures ValidPath(Replace(t, p, s), p) && RedOKBut(Replace(t, p, s), p)
    decreases |p|
  {
    AtReplace(t, p, s);
    if |p| > 0 {
      var c := Child(t, p[0]);
      RedOKButSeed(c, p[1..], s);
      if |p| > 1 {
        ReplaceRoot(c, p[1..], s);
      }
    }
  }

  // The fix-up cases as the tree class performs them: one rotation or one recolouring at a time.

  /** The tree with the node at the end of `r` recoloured. */
  ghost function PaintAt<N>(t: Tree<N>, r: seq<int>, red: bool): Tree<N>
    requires ValidPath(t, r) && At(t, r).Br?
  {
    Replace(t, r, At(t, r).(red := red))
  }

  lemma {:induction false} ReplaceTwice<N>(t: Tree<N>, q: seq<int>, a: Tree<N>, b: Tree<N>)
    requires ValidPath(t, q)
    ensures ValidPath(Replace(t, q, a), q) && Replace(Replace(t, q, a), q, b) == Replace(t, q, b)
    decreases |q|
  {
    AtReplace(t, q, a);
    if |q| > 0 {
      ReplaceTwice(Child(t, q[0]), q[1..], a, b);
    }
  }

  /** Every node of a subtree is a node of the tree, and below the first step a node of that side. */
  lemma {:induction false} NodesAt<N>(t: Tree<N>, p: seq<int>)
    requires ValidPath(t, p)
    ensures Nodes(At(t, p)) <= Nodes(t)
    ensures |p| > 0 ==> Nodes(At(t, p)) <= Nodes(Child(t, p[0]))
    decreases |p|
  {
    if |p| > 0 {
      NodesAt(Child(t, p[0]), p[1..]);
    }
  }

  /** A change below child `d` of the node at `q` is a change of that node. */
  lemma ReplaceChild<N>(t: Tree<N>, q: seq<int>, d: int, s: Tree<N>)
    requires ValidPath(t, q) && At(t, q).Br? && (d == 0 || d == 1)
    ensures ValidPath(t, q + [d]) && At(t, q + [d]) == Child(At(t, q), d)
    ensures Replace(t, q + [d], s) == Replace(t, q, WithChild(At(t, q), d, s))
  {
    PathSnoc(t, q, d);
    ReplaceConcat(t, q, [d], s);
  }

  /** Case 2 as three recolourings: parent, uncle, grandparent. */
  lemma FlipByPaints<N>(t: Tree<N>, q: seq<int>, e: int)
    requires ValidPath(t, q) && At(t, q).Br? && (e == 0 || e == 1)
    requires At(t, q).left.Br? && At(t, q).right.Br?
    ensures ValidPath(t, q + [e]) && At(t, q + [e]) == Child(At(t, q), e)
    ensures var t1 := PaintAt(t, q + [e], false);
      ValidPath(t1, q + [1 - e]) && At(t1, q + [1 - e]).Br? && At(t1, q + [1 - e]).node == Child(At(t, q), 1 - e).node &&
      var t2 := PaintAt(t1, q + [1 - e], false);
      ValidPath(t2, q) && At(t2, q).Br? && At(t2, q).node == At(t, q).node &&
      PaintAt(t2, q, true) == Replace(t, q, Flip(At(t, q)))
  {
    var g := At(t, q);
    assert Child(g, e).Br? && Child(g, 1 - e).Br?;
    ReplaceChild(t, q, e, Child(g, e).(red := false));
    var g1 := WithChild(g, e, Child(g, e).(red := false));
    var t1 := Replace(t, q, g1);
    AtReplace(t, q, g1);
    ReplaceChild(t1, q, 1 - e, Child(g, 1 - e).(red := false));
    var g2 := WithChild(g1, 1 - e, Child(g, 1 - e).(red := false));
    ReplaceTwice(t, q, g1, g2);
    var t2 := Replace(t, q, g2);
    AtReplace(t, q, g2);
    ReplaceTwice(t, q, g2, g2.(red := true));
    assert g2.(red := true) == Flip(g);
  }

  /**
   * Cases 5 and 6 as the tree class performs them: for an inner node a rotation at the
   * parent, then one at the grandparent, then the new subtree root painted black and
   * the old grandparent, now its child `1 - e`, red.
   */
  lemma RestructureByRotations<N>(t: Tree<N>, q: seq<int>, e: int, f: int)
    requires ValidPath(t, q) && At(t, q).Br? && (e == 0 || e == 1) && (f == 0 || f == 1)
    requires Child(At(t, q), e).Br? && Child(Child(At(t, q), e), f).Br?
    ensures ValidPath(t, q + [e]) && At(t, q + [e]).Br? && (f == 1 - e ==> Child(At(t, q + [e]), 1 - e).Br?)
    ensures var t1 := if f == 1 - e then RotateAt(t, q + [e], e) else t;
      ValidPath(t1, q) && At(t1, q).Br? && Child(At(t1, q), e).Br? &&
      At(t1, q).node == At(t, q).node && Child(At(t1, q), e).node == (if f == 1 - e then Child(Child(At(t, q), e), f) else Child(At(t, q), e)).node &&
      var t2 := RotateAt(t1, q, 1 - e);
      ValidPath(t2, q) && At(t2, q).Br? && At(t2, q).node == Child(At(t1, q), e).node &&
      var t3 := PaintAt(t2, q, false);
      ValidPath(t3, q + [1 - e]) && At(t3, q + [1 - e]).Br? && At(t3, q + [1 - e]).node == At(t, q).node &&
      PaintAt(t3, q + [1 - e], true) == Replace(t, q, Restructure(At(t, q), e, f))
  {
    var g := At(t, q);
    var p := Child(g, e);
    PathSnoc(t, q, e);
    var g1 := if f == 1 - e then WithChild(g, e, Rot(p, e)) else g;
    var t1 := if f == 1 - e then RotateAt(t, q + [e], e) else t;
    if f == 1 - e {
      ReplaceChild(t, q, e, Rot(p, e));
    } else {
      ReplaceSelf(t, q);
    }
    assert t1 == Replace(t, q, g1);
    AtReplace(t, q, g1);
    var top := Rot(g1, 1 - e);
    ReplaceTwice(t, q, g1, top);
    var t2 := Replace(t, q, top);
    AtReplace(t, q, top);
    ReplaceTwice(t, q, top, top.(red := false));
    var t3 := Replace(t, q, top.(red := false));
    AtReplace(t, q, top.(red := false));
    var gr := Child(top, 1 - e).(red := true);
    ReplaceChild(t3, q, 1 - e, gr);
    ReplaceTwice(t, q, top.(red := false), WithChild(top.(red := false), 1 - e, gr));
  }

  // Insert.

  /**
   * Insert of a node `n` with key `k`: nothing changes when `k` is present; otherwise
   * `n` goes, red, to the end of the search path, and the fix-up runs from there.
   */
  ghost function InsertTree<N>(t: Tree<N>, n: N, k: int): Tree<N> {
    var p := Descend(t, k);
    if At(t, p).Br? then t
    else
      var leaf := Br(Leaf, n, k, true, Leaf);
      AtReplace(t, p, leaf);
      FixUp(Replace(t, p, leaf), p)
  }

  /** Inserting a key that is present changes nothing. */
  lemma InsertPresent<N>(t: Tree<N>, n: N, k: int)
    requires Ordered(t) && k in Keys(t)
    ensures InsertTree(t, n, k) == t
  {
    DescendFinds(t, k);
  }

  /** The first insert makes a red root with no children. */
  lemma InsertEmpty<N>(n: N, k: int)
    ensures InsertTree(Leaf, n, k) == Br(Leaf, n, k, true, Leaf)
  {
  }

  /** Inserting an absent key keeps the order and adds exactly that key. */
  lemma InsertKeys<N>(t: Tree<N>, n: N, k: int)
    requires Ordered(t) && k !in Keys(t)
    ensures Ordered(InsertTree(t, n, k))
    ensures multiset(Keys(InsertTree(t, n, k))) == multiset(Keys(t)) + multiset{k}
  {
    var p := Descend(t, k);
    var leaf := Br(Leaf, n, k, true, Leaf);
    DescendFinds(t, k);
    DescendInsertOrdered(t, k, leaf);
    KeysFill(t, p, leaf);
    AtReplace(t, p, leaf);
    FixUpKeeps(Replace(t, p, leaf), p);
  }

  /** Inserting an absent key adds exactly the new node, which stays distinct from the others. */
  lemma InsertNodes<N>(t: Tree<N>, n: N, k: int)
    requires Ordered(t) && k !in Keys(t)
    ensures Nodes(InsertTree(t, n, k)) == Nodes(t) + {n}
    ensures Unique(t) && n !in Nodes(t) ==> Unique(InsertTree(t, n, k))
  {
    var p := Descend(t, k);
    var leaf := Br(Leaf, n, k, true, Leaf);
    DescendFinds(t, k);
    assert Nodes(leaf) == {n} && Unique(leaf);
    DescendInsertNodes(t, k, leaf);
    var t1 := Replace(t, p, leaf);
    AtReplace(t, p, leaf);
    FixUpKeeps(t1, p);
    assert InsertTree(t, n, k) == FixUp(t1, p);
  }

  /** Insert keeps a red-black tree red-black. */
  lemma InsertRedBlack<N>(t: Tree<N>, n: N, k: int)
    requires RedBlack(t)
    ensures RedBlack(InsertTree(t, n, k))
  {
    var p := Descend(t, k);
    if At(t, p).Leaf? {
      var leaf := Br(Leaf, n, k, true, Leaf);
      BalancedReplace(t, p, leaf);
      RedOKButSeed(t, p, leaf);
      AtReplace(t, p, leaf);
      FixUpRedBlack(Replace(t, p, leaf), p);
    }
  }

  lemma InsertExampleStep1()
    ensures InsertTree<int>(Leaf, 8, 8) ==
      Br(Leaf, 8, 8, true, Leaf)
  {
    var t0: Tree<int> := Leaf;
    assert Descend(t0, 8) == [];
    assert Replace(t0, [], Br(Leaf, 8, 8, true, Leaf)) == Br(Leaf, 8, 8, true, Leaf);
    assert FixUp(Br(Leaf, 8, 8, true, Leaf), []) == Br(Leaf, 8, 8, true, Leaf);
  }

  lemma InsertExampleStep2()
    ensures InsertTree<int>(Br(Leaf, 8, 8, true, Leaf), 18, 18) ==
      Br(Leaf, 8, 8, false, Br(Leaf, 18, 18, true, Leaf))
  {
    var t1: Tree<int> := Br(Leaf, 8, 8, true, Leaf);
    assert Descend(t1, 18) == [1];
    assert Replace(t1, [1], Br(Leaf, 18, 18, true, Leaf)) == Br(Leaf, 8, 8, true, Br(Leaf, 18, 18, true, Leaf));
    assert FixUp(Br(Leaf, 8, 8, true, Br(Leaf, 18, 18, true, Leaf)), [1]) == Br(Leaf, 8, 8, false, Br(Leaf, 18, 18, true, Leaf));
  }

  lemma InsertExampleStep3()
    ensures InsertTree<int>(Br(Leaf, 8, 8, false, Br(Leaf, 18, 18, true, Leaf)), 5, 5) ==
      Br(Br(Leaf, 5, 5, true, Leaf), 8, 8, false, Br(Leaf, 18, 18, true, Leaf))
  {
    var t2: Tree<int> := Br(Leaf, 8, 8, false, Br(Leaf, 18, 18, true, Leaf));
    assert Descend(t2, 5) == [0];
    assert Replace(t2, [0], Br(Leaf, 5, 5, true, Leaf)) == Br(Br(Leaf, 5, 5, true, Leaf), 8, 8, false, Br(Leaf, 18, 18, true, Leaf));
    assert FixUp(Br(Br(Leaf, 5, 5, true, Leaf), 8, 8, false, Br(Leaf, 18, 18, true, Leaf)), [0]) == Br(Br(Leaf, 5, 5, true, Leaf), 8, 8, false, Br(Leaf, 18, 18, true, Leaf));
  }

  lemma InsertExampleStep4()
    ensures InsertTree<int>(Br(Br(Leaf, 5, 5, true, Leaf), 8, 8, false, Br(Leaf, 18, 18, true, Leaf)), 15, 15) ==
      Br(Br(Leaf, 5, 5, false, Leaf), 8, 8, true, Br(Br(Leaf, 15, 15, true, Leaf), 18, 18, false, Leaf))
  {
    var t3: Tree<int> := Br(Br(Leaf, 5, 5, true, Leaf), 8, 8, false, Br(Leaf, 18, 18, true, Leaf));
    assert Descend(t3, 15) == [1, 0];
    assert Replace(t3, [1, 0], Br(Leaf, 15, 15, true, Leaf)) == Br(Br(Leaf, 5, 5, true, Leaf), 8, 8, false, Br(Br(Leaf, 15, 15, true, Leaf), 18, 18, true, Leaf));
    assert [1, 0][..1] == [1] && [1][..0] == [];
    assert At(Br(Br(Leaf, 5, 5, true, Leaf), 8, 8, false, Br(Br(Leaf, 15, 15, true, Leaf), 18, 18, true, Leaf)), []) == Br(Br(Leaf, 5, 5, true, Leaf), 8, 8, false, Br(Br(Leaf, 15, 15, true, Leaf), 18, 18, true, Leaf));
    assert Replace(Br(Br(Leaf, 5, 5, true, Leaf), 8, 8, false, Br(Br(Leaf, 15, 15, true, Leaf), 18, 18, true, Leaf)), [], Flip(Br(Br(Leaf, 5, 5, true, Leaf), 8, 8, false, Br(Br(Leaf, 15, 15, true, Leaf), 18, 18, true, Leaf)))) == Br(Br(Leaf, 5, 5, false, Leaf), 8, 8, true, Br(Br(Leaf, 15, 15, true, Leaf), 18, 18, false, Leaf));
    assert FixUp(Br(Br(Leaf, 5, 5, true, Leaf), 8, 8, false, Br(Br(Leaf, 15, 15, true, Leaf), 18, 18, true, Leaf)), [1, 0]) == FixUp(Br(Br(Leaf, 5, 5, false, Leaf), 8, 8, true, Br(Br(Leaf, 15, 15, true, Leaf), 18, 18, false, Leaf)), []);
    assert FixUp(Br(Br(Leaf, 5, 5, false, Leaf), 8, 8, true, Br(Br(Leaf, 15, 15, true, Leaf), 18, 18, false, Leaf)), []) == Br(Br(Leaf, 5, 5, false, Leaf), 8, 8, true, Br(Br(Leaf, 15, 15, true, Leaf), 18, 18, false, Leaf));
  }

  lemma InsertExampleStep5()
    ensures InsertTree<int>(Br(Br(Leaf, 5, 5, false, Leaf), 8, 8, true, Br(Br(Leaf, 15, 15, true, Leaf), 18, 18, false, Leaf)), 17, 17) ==
      Br(Br(Leaf, 5, 5, false, Leaf), 8, 8, true, Br(Br(Leaf, 15, 15, true, Leaf), 17, 17, false, Br(Leaf, 18, 18, true, Leaf)))
  {
    var t4: Tree<int> := Br(Br(Leaf, 5, 5, false, Leaf), 8, 8, true, Br(Br(Leaf, 15, 15, true, Leaf), 18, 18, false, Leaf));
    assert Descend(t4, 17) == [1, 0, 1];
    assert Replace(t4, [1, 0, 1], Br(Leaf, 17, 17, true, Leaf)) == Br(Br(Leaf, 5, 5, false, Leaf), 8, 8, true, Br(Br(Leaf, 15, 15, true, Br(Leaf, 17, 17, true, Leaf)), 18, 18, false, Leaf));
    assert [1, 0, 1][..2] == [1, 0] && [1, 0][..1] == [1];
    assert At(Br(Br(Leaf, 5, 5, false, Leaf), 8, 8, true, Br(Br(Leaf, 15, 15, true, Br(Leaf, 17, 17, true, Leaf)), 18, 18, false, Leaf)), [1]) == Br(Br(Leaf, 15, 15, true, Br(Leaf, 17, 17, true, Leaf)), 18, 18, false, Leaf);
    assert Restructure(Br(Br(Leaf, 15, 15, true, Br(Leaf, 17, 17, true, Leaf)), 18, 18, false, Leaf), 0, 1) == Br(Br(Leaf, 15, 15, true, Leaf), 17, 17, false, Br(Leaf, 18, 18, true, Leaf));
    assert Replace(Br(Br(Leaf, 5, 5, false, Leaf), 8, 8, true, Br(Br(Leaf, 15, 15, true, Br(Leaf, 17, 17, true, Leaf)), 18, 18, false, Leaf)), [1], Br(Br(Leaf, 15, 15, true, Leaf), 17, 17, false, Br(Leaf, 18, 18, true, Leaf))) == Br(Br(Leaf, 5, 5, false, Leaf), 8, 8, true, Br(Br(Leaf, 15, 15, true, Leaf), 17, 17, false, Br(Leaf, 18, 18, true, Leaf)));
    assert FixUp(Br(Br(Leaf, 5, 5, false, Leaf), 8, 8, true, Br(Br(Leaf, 15, 15, true, Br(Leaf, 17, 17, true, Leaf)), 18, 18, false, Leaf)), [1, 0, 1]) == Br(Br(Leaf, 5, 5, false, Leaf), 8, 8, true, Br(Br(Leaf, 15, 15, true, Leaf), 17, 17, false, Br(Leaf, 18, 18, true, Leaf)));
  }

  lemma InsertExampleStep6()
    ensures InsertTree<int>(Br(Br(Leaf, 5, 5, false, Leaf), 8, 8, true, Br(Br(Leaf, 15, 15, true, Leaf), 17, 17, false, Br(Leaf, 18, 18, true, Leaf))), 25, 25) ==
      Br(Br(Leaf, 5, 5, false, Leaf), 8, 8, false, Br(Br(Leaf, 15, 15, false, Leaf), 17, 17, true, Br(Leaf, 18, 18, false, Br(Leaf, 25, 25, true, Leaf))))
  {
    var t5: Tree<int> := Br(Br(Leaf, 5, 5, false, Leaf), 8, 8, true, Br(Br(Leaf, 15, 15, true, Leaf), 17, 17, false, Br(Leaf, 18, 18, true, Leaf)));
    assert Descend(t5, 25) == [1, 1, 1];
    assert Replace(t5, [1, 1, 1], Br(Leaf, 25, 25, true, Leaf)) == Br(Br(Leaf, 5, 5, false, Leaf), 8, 8, true, Br(Br(Leaf, 15, 15, true, Leaf), 17, 17, false, Br(Leaf, 18, 18, true, Br(Leaf, 25, 25, true, Leaf))));
    assert [1, 1, 1][..2] == [1, 1] && [1, 1][..1] == [1];
    assert At(Br(Br(Leaf, 5, 5, false, Leaf), 8, 8, true, Br(Br(Leaf, 15, 15, true, Leaf), 17, 17, false, Br(Leaf, 18, 18, true, Br(Leaf, 25, 25, true, Leaf)))), [1]) == Br(Br(Leaf, 15, 15, true, Leaf), 17, 17, false, Br(Leaf, 18, 18, true, Br(Leaf, 25, 25, true, Leaf)));
    assert Replace(Br(Br(Leaf, 5, 5, false, Leaf), 8, 8, true, Br(Br(Leaf, 15, 15, true, Leaf), 17, 17, false, Br(Leaf, 18, 18, true, Br(Leaf, 25, 25, true, Leaf)))), [1], Flip(Br(Br(Leaf, 15, 15, true, Leaf), 17, 17, false, Br(Leaf, 18, 18, true, Br(Leaf, 25, 25, true, Leaf))))) == Br(Br(Leaf, 5, 5, false, Leaf), 8, 8, true, Br(Br(Leaf, 15, 15, false, Leaf), 17, 17, true, Br(Leaf, 18, 18, false, Br(Leaf, 25, 25, true, Leaf))));
    assert FixUp(Br(Br(Leaf, 5, 5, false, Leaf), 8, 8, true, Br(Br(Leaf, 15, 15, true, Leaf), 17, 17, false, Br(Leaf, 18, 18, true, Br(Leaf, 25, 25, true, Leaf)))), [1, 1, 1]) == FixUp(Br(Br(Leaf, 5, 5, false, Leaf), 8, 8, true, Br(Br(Leaf, 15, 15, false, Leaf), 17, 17, true, Br(Leaf, 18, 18, false, Br(Leaf, 25, 25, true, Leaf)))), [1]);
    assert FixUp(Br(Br(Leaf, 5, 5, false, Leaf), 8, 8, true, Br(Br(Leaf, 15, 15, false, Leaf), 17, 17, true, Br(Leaf, 18, 18, false, Br(Leaf, 25, 25, true, Leaf)))), [1]) == Br(Br(Leaf, 5, 5, false, Leaf), 8, 8, false, Br(Br(Leaf, 15, 15, false, Leaf), 17, 17, true, Br(Leaf, 18, 18, false, Br(Leaf, 25, 25, true, Leaf))));
  }

  lemma InsertExampleStep7()
    ensures InsertTree<int>(Br(Br(Leaf, 5, 5, false, Leaf), 8, 8, false, Br(Br(Leaf, 15, 15, false, Leaf), 17, 17, true, Br(Leaf, 18, 18, false, Br(Leaf, 25, 25, true, Leaf)))), 40, 40) ==
      Br(Br(Leaf, 5, 5, false, Leaf), 8, 8, false, Br(Br(Leaf, 15, 15, false, Leaf), 17, 17, true, Br(Br(Leaf, 18, 18, true, Leaf), 25, 25, false, Br(Leaf, 40, 40, true, Leaf))))
  {
    var t6: Tree<int> := Br(Br(Leaf, 5, 5, false, Leaf), 8, 8, false, Br(Br(Leaf, 15, 15, false, Leaf), 17, 17, true, Br(Leaf, 18, 18, false, Br(Leaf, 25, 25, true, Leaf))));
    assert Descend(t6, 40) == [1, 1, 1, 1];
    assert Replace(t6, [1, 1, 1, 1], Br(Leaf, 40, 40, true, Leaf)) == Br(Br(Leaf, 5, 5, false, Leaf), 8, 8, false, Br(Br(Leaf, 15, 15, false, Leaf), 17, 17, true, Br(Leaf, 18, 18, false, Br(Leaf, 25, 25, true, Br(Leaf, 40, 40, true, Leaf)))));
    assert [1, 1, 1, 1][..3] == [1, 1, 1] && [1, 1, 1][..2] == [1, 1];
    assert At(Br(Br(Leaf, 5, 5, false, Leaf), 8, 8, false, Br(Br(Leaf, 15, 15, false, Leaf), 17, 17, true, Br(Leaf, 18, 18, false, Br(Leaf, 25, 25, true, Br(Leaf, 40, 40, true, Leaf))))), [1, 1]) == Br(Leaf, 18, 18, false, Br(Leaf, 25, 25, true, Br(Leaf, 40, 40, true, Leaf)));
    assert Restructure(Br(Leaf, 18, 18, false, Br(Leaf, 25, 25, true, Br(Leaf, 40, 40, true, Leaf))), 1, 1) == Br(Br(Leaf, 18, 18, true, Leaf), 25, 25, false, Br(Leaf, 40, 40, true, Leaf));
    assert Replace(Br(Br(Leaf, 5, 5, false, Leaf), 8, 8, false, Br(Br(Leaf, 15, 15, false, Leaf), 17, 17, true, Br(Leaf, 18, 18, false, Br(Leaf, 25, 25, true, Br(Leaf, 40, 40, true, Leaf))))), [1, 1], Br(Br(Leaf, 18, 18, true, Leaf), 25, 25, false, Br(Leaf, 40, 40, true, Leaf))) == Br(Br(Leaf, 5, 5, false, Leaf), 8, 8, false, Br(Br(Leaf, 15, 15, false, Leaf), 17, 17, true, Br(Br(Leaf, 18, 18, true, Leaf), 25, 25, false, Br(Leaf, 40, 40, true, Leaf))));
    assert FixUp(Br(Br(Leaf, 5, 5, false, Leaf), 8, 8, false, Br(Br(Leaf, 15, 15, false, Leaf), 17, 17, true, Br(Leaf, 18, 18, false, Br(Leaf, 25, 25, true, Br(Leaf, 40, 40, true, Leaf))))), [1, 1, 1, 1]) == Br(Br(Leaf, 5, 5, false, Leaf), 8, 8, false, Br(Br(Leaf, 15, 15, false, Leaf), 17, 17, true, Br(Br(Leaf, 18, 18, true, Leaf), 25, 25, false, Br(Leaf, 40, 40, true, Leaf))));
  }

  lemma InsertExampleStep8()
    ensures InsertTree<int>(Br(Br(Leaf, 5, 5, false, Leaf), 8, 8, false, Br(Br(Leaf, 15, 15, false, Leaf), 17, 17, true, Br(Br(Leaf, 18, 18, true, Leaf), 25, 25, false, Br(Leaf, 40, 40, true, Leaf)))), 80, 80) ==
      Br(Br(Br(Leaf, 5, 5, false, Leaf), 8, 8, true, Br(Leaf, 15, 15, false, Leaf)), 17, 17, false, Br(Br(Leaf, 18, 18, false, Leaf), 25, 25, true, Br(Leaf, 40, 40, false, Br(Leaf, 80, 80, true, Leaf))))
  {
    var t7: Tree<int> := Br(Br(Leaf, 5, 5, false, Leaf), 8, 8, false, Br(Br(Leaf, 15, 15, false, Leaf), 17, 17, true, Br(Br(Leaf, 18, 18, true, Leaf), 25, 25, false, Br(Leaf, 40, 40, true, Leaf))));
    assert Descend(t7, 80) == [1, 1, 1, 1];
    assert Replace(t7, [1, 1, 1, 1], Br(Leaf, 80, 80, true, Leaf)) == Br(Br(Leaf, 5, 5, false, Leaf), 8, 8, false, Br(Br(Leaf, 15, 15, false, Leaf), 17, 17, true, Br(Br(Leaf, 18, 18, true, Leaf), 25, 25, false, Br(Leaf, 40, 40, true, Br(Leaf, 80, 80, true, Leaf)))));
    assert [1, 1, 1, 1][..3] == [1, 1, 1] && [1, 1, 1][..2] == [1, 1];
    assert At(Br(Br(Leaf, 5, 5, false, Leaf), 8, 8, false, Br(Br(Leaf, 15, 15, false, Leaf), 17, 17, true, Br(Br(Leaf, 18, 18, true, Leaf), 25, 25, false, Br(Leaf, 40, 40, true, Br(Leaf, 80, 80, true, Leaf))))), [1, 1]) == Br(Br(Leaf, 18, 18, true, Leaf), 25, 25, false, Br(Leaf, 40, 40, true, Br(Leaf, 80, 80, true, Leaf)));
    assert Replace(Br(Br(Leaf, 5, 5, false, Leaf), 8, 8, false, Br(Br(Leaf, 15, 15, false, Leaf), 17, 17, true, Br(Br(Leaf, 18, 18, true, Leaf), 25, 25, false, Br(Leaf, 40, 40, true, Br(Leaf, 80, 80, true, Leaf))))), [1, 1], Flip(Br(Br(Leaf, 18, 18, true, Leaf), 25, 25, false, Br(Leaf, 40, 40, true, Br(Leaf, 80, 80, true, Leaf))))) == Br(Br(Leaf, 5, 5, false, Leaf), 8, 8, false, Br(Br(Leaf, 15, 15, false, Leaf), 17, 17, true, Br(Br(Leaf, 18, 18, false, Leaf), 25, 25, true, Br(Leaf, 40, 40, false, Br(Leaf, 80, 80, true, Leaf)))));
    assert FixUp(Br(Br(Leaf, 5, 5, false, Leaf), 8, 8, false, Br(Br(Leaf, 15, 15, false, Leaf), 17, 17, true, Br(Br(Leaf, 18, 18, true, Leaf), 25, 25, false, Br(Leaf, 40, 40, true, Br(Leaf, 80, 80, true, Leaf))))), [1, 1, 1, 1]) == FixUp(Br(Br(Leaf, 5, 5, false, Leaf), 8, 8, false, Br(Br(Leaf, 15, 15, false, Leaf), 17, 17, true, Br(Br(Leaf, 18, 18, false, Leaf), 25, 25, true, Br(Leaf, 40, 40, false, Br(Leaf, 80, 80, true, Leaf))))), [1, 1]);
    assert [1, 1][..1] == [1] && [1][..0] == [];
    assert At(Br(Br(Leaf, 5, 5, false, Leaf), 8, 8, false, Br(Br(Leaf, 15, 15, false, Leaf), 17, 17, true, Br(Br(Leaf, 18, 18, false, Leaf), 25, 25, true, Br(Leaf, 40, 40, false, Br(Leaf, 80, 80, true, Leaf))))), []) == Br(Br(Leaf, 5, 5, false, Leaf), 8, 8, false, Br(Br(Leaf, 15, 15, false, Leaf), 17, 17, true, Br(Br(Leaf, 18, 18, false, Leaf), 25, 25, true, Br(Leaf, 40, 40, false, Br(Leaf, 80, 80, true, Leaf)))));
    assert Restructure(Br(Br(Leaf, 5, 5, false, Leaf), 8, 8, false, Br(Br(Leaf, 15, 15, false, Leaf), 17, 17, true, Br(Br(Leaf, 18, 18, false, Leaf), 25, 25, true, Br(Leaf, 40, 40, false, Br(Leaf, 80, 80, true, Leaf))))), 1, 1) == Br(Br(Br(Leaf, 5, 5, false, Leaf), 8, 8, true, Br(Leaf, 15, 15, false, Leaf)), 17, 17, false, Br(Br(Leaf, 18, 18, false, Leaf), 25, 25, true, Br(Leaf, 40, 40, false, Br(Leaf, 80, 80, true, Leaf))));
    assert Replace(Br(Br(Leaf, 5, 5, false, Leaf), 8, 8, false, Br(Br(Leaf, 15, 15, false, Leaf), 17, 17, true, Br(Br(Leaf, 18, 18, false, Leaf), 25, 25, true, Br(Leaf, 40, 40, false, Br(Leaf, 80, 80, true, Leaf))))), [], Br(Br(Br(Leaf, 5, 5, false, Leaf), 8, 8, true, Br(Leaf, 15, 15, false, Leaf)), 17, 17, false, Br(Br(Leaf, 18, 18, false, Leaf), 25, 25, true, Br(Leaf, 40, 40, false, Br(Leaf, 80, 80, true, Leaf))))) == Br(Br(Br(Leaf, 5, 5, false, Leaf), 8, 8, true, Br(Leaf, 15, 15, false, Leaf)), 17, 17, false, Br(Br(Leaf, 18, 18, false, Leaf), 25, 25, true, Br(Leaf, 40, 40, false, Br(Leaf, 80, 80, true, Leaf))));
    assert FixUp(Br(Br(Leaf, 5, 5, false, Leaf), 8, 8, false, Br(Br(Leaf, 15, 15, false, Leaf), 17, 17, true, Br(Br(Leaf, 18, 18, false, Leaf), 25, 25, true, Br(Leaf, 40, 40, false, Br(Leaf, 80, 80, true, Leaf))))), [1, 1]) == Br(Br(Br(Leaf, 5, 5, false, Leaf), 8, 8, true, Br(Leaf, 15, 15, false, Leaf)), 17, 17, false, Br(Br(Leaf, 18, 18, false, Leaf), 25, 25, true, Br(Leaf, 40, 40, false, Br(Leaf, 80, 80, true, Leaf))));
  }

  /** Inserts the keys in turn, each node standing for its own key. */
  ghost function InsertAll(t: Tree<int>, ks: seq<int>): Tree<int>
    decreases |ks|
  {
    if |ks| == 0 then t else InsertAll(InsertTree(t, ks[0], ks[0]), ks[1..])
  }

  /**
   * Inserting 8, 18, 5, 15, 17, 25, 40, 80 gives root 17 over 8 and 25, then 5, 15, 18
   * and 40, and 80 right of 40.
   */
  lemma InsertExample()
    ensures InsertAll(Leaf, [8, 18, 5, 15, 17, 25, 40, 80]) ==
      Br(Br(Br(Leaf, 5, 5, false, Leaf), 8, 8, true, Br(Leaf, 15, 15, false, Leaf)), 17, 17, false, Br(Br(Leaf, 18, 18, false, Leaf), 25, 25, true, Br(Leaf, 40, 40, false, Br(Leaf, 80, 80, true, Leaf))))
  {
    InsertExampleStep1();
    InsertExampleStep2();
    InsertExampleStep3();
    InsertExampleStep4();
    InsertExampleStep5();
    InsertExampleStep6();
    InsertExampleStep7();
    InsertExampleStep8();
    var ks := [8, 18, 5, 15, 17, 25, 40, 80];
    assert ks[1..][1..][1..][1..][1..][1..][1..][1..] == [];
  }
}
