/**
 * `delete(withKey:)` of the B-tree of `BTree.swift`, with the underflow repair of
 * `handleUnderflow`: a node left one key short takes a key from its fuller adjacent
 * sibling through the parent (a transfer), or is merged with it and the separator
 * between them, after which the parent may be short in turn.
 *
 * As for insert, a node is named by its path from the root and each Swift method that
 * edits nodes in place becomes a function from the tree before to the tree after.
 */
module BTreeDelete {
  import opened Wrappers
  import opened ArraySearch
  import opened BTreeNodes
  import opened BTrees

  // ---------------------------------------------------------------------------
  // The steps of handleUnderflow on the parent of the short node

  /**
   * `findFullestSibling`: the side of child `i` on which to find help, `-1` for the
   * left sibling and `1` for the right one: the one with more keys, the left one on a tie.
   */
  function FullestSibling<V>(par: Node<V>, i: nat): (d: int)
    requires i < |par.children| && |par.children| >= 2
    ensures (d == -1 || d == 1) && 0 <= i + d < |par.children|
    ensures i > 0 ==> |par.children[i + d].entries| >= |par.children[i - 1].entries|
    ensures i + 1 < |par.children| ==> |par.children[i + d].entries| >= |par.children[i + 1].entries|
    ensures d == 1 && i > 0 ==> |par.children[i + 1].entries| > |par.children[i - 1].entries|
  {
    if i == 0 then 1
    else if i == |par.children| - 1 then -1
    else if |par.children[i - 1].entries| >= |par.children[i + 1].entries| then -1
    else 1
  }

  /**
   * The transfer branch of `handleUnderflow` on the parent `par` of the short child `i`
   * and its sibling on side `d`: the separator between them moves down to the end of
   * the short child nearest the sibling, the sibling's nearest key moves up in its
   * place, and the sibling's nearest child moves across with it.
   */
  function Transfer<V>(par: Node<V>, i: nat, d: int): Node<V>
    requires d == -1 || d == 1
    requires i < |par.children| && 0 <= i + d < |par.children| && |par.children| == |par.entries| + 1
    requires |par.children[i + d].entries| > 0
    requires |par.children[i].children| > 0 ==> |par.children[i + d].children| > 0
  {
    var n, s := par.children[i], par.children[i + d];
    var inner := |n.children| > 0;
    if d == 1 then
      Pair(par, i, Join(n, par.entries[i], Leading(s, inner)), s.entries[0], WithoutFirst(s, inner))
    else
      Pair(par, i - 1, WithoutLast(s, inner), s.entries[|s.entries| - 1], Join(Trailing(s, inner), par.entries[i - 1], n))
  }

  /** The merge branch: children `l` and `l + 1` and the separator between them become one child. */
  function Merge<V>(par: Node<V>, l: nat): Node<V>
    requires l < |par.entries| && l + 1 < |par.children|
  {
    Node(par.entries[..l] + par.entries[l + 1..],
         par.children[..l] + [Join(par.children[l], par.entries[l], par.children[l + 1])] + par.children[l + 2..])
  }

  /** The left one of the two children a merge on side `d` of child `i` joins. */
  function MergeSlot(i: nat, d: int): int {
    if d == 1 then i else i - 1
  }

  /**
   * The state `handleUnderflow(node)` is called in: a B-tree of order `m` whose node at
   * `p`, below the root, holds one key fewer than `minKeys`.
   */
  ghost predicate Underflowing<V>(t: Node<V>, m: int, p: seq<int>) {
    m >= 3 && Uniform(t, Height(t)) && ValidPath(t, p) && |p| > 0 &&
    Fits(t, m, 1, Some(p)) && |At(t, p).entries| < MinKeys(m)
  }

  /**
   * `handleUnderflow(node)` for the node at `p`: a transfer from the fuller sibling if
   * it has keys to spare, else a merge with it; a root left without keys gives way to
   * the merged node, and a parent below the root left short is repaired in turn.
   */
  function HandleUnderflow<V>(t: Node<V>, m: int, p: seq<int>): Node<V>
    requires Underflowing(t, m, p)
    decreases |p|
  {
    UnderflowFacts(t, m, p);
    var q, i := p[..|p| - 1], p[|p| - 1];
    var par := At(t, q);
    var d := FullestSibling(par, i);
    if |par.children[i + d].entries| > MinKeys(m) then Replace(t, q, Transfer(par, i, d))
    else
      var par' := Merge(par, MergeSlot(i, d));
      if |q| == 0 && |par'.entries| == 0 then par'.children[0]
      else if |q| == 0 || |par'.entries| >= MinKeys(m) then Replace(t, q, par')
      else
        MergeUnderflow(t, m, p, q, i, d);
        HandleUnderflow(Replace(t, q, par'), m, q)
  }

  // ---------------------------------------------------------------------------
  // delete

  /**
   * `delete(node:at:)` on slot `i` of the node at `p`: a leaf loses the entry; an inner
   * node takes over the last entry of the in-order predecessor's node under child `i`,
   * which loses it. A root leaf left empty empties the tree, and a node below the root
   * left short is repaired by `handleUnderflow`.
   */
  function DeleteAt<V>(t: Node<V>, m: int, p: seq<int>, i: nat): Option<Node<V>>
    requires m >= 3 && Uniform(t, Height(t)) && Fits(t, m, 1, None)
    requires ValidPath(t, p) && i < |At(t, p).entries|
    decreases |At(t, p).children|
  {
    var n := At(t, p);
    if |n.children| == 0 then
      var x := n.(entries := n.entries[..i] + n.entries[i + 1..]);
      if |p| == 0 then (if |x.entries| == 0 then None else Some(x))
      else if |x.entries| >= MinKeys(m) then Some(Replace(t, p, x))
      else
        LeafUnderflow(t, m, p, i);
        Some(HandleUnderflow(Replace(t, p, x), m, p))
    else
      PredecessorFacts(t, m, p, i);
      var r := [i] + PredecessorPath(n.children[i]);
      var leaf := At(t, p + r);
      var last := |leaf.entries| - 1;
      Overwrite(t, m, p, i, leaf.entries[last], r);
      DeleteAt(Replace(t, p, n.(entries := n.entries[i := leaf.entries[last]])), m, p + r, last)
  }

  /** `delete(withKey:)`: nothing for an empty tree or an absent key, else a delete where `findForDelete` finds the key. */
  function DeleteKey<V>(root: Option<Node<V>>, m: int, k: int): Option<Node<V>>
    requires ValidRoot(root, m)
  {
    if root.None? then None
    else
      var t := root.value;
      UniformHeight(t, Height(t));
      var (p, i) := FindForDelete(t, k);
      if p.None? then root else DeleteAt(t, m, p.value, i)
  }

  // ---------------------------------------------------------------------------
  // Bounds of a node from those of its children

  /** Without a hole, a node fits when its key count is within bounds and its children fit below it. */
  lemma FitsNone<V>(x: Node<V>, m: int, lo: int)
    ensures Fits(x, m, lo, None) <==> lo <= |x.entries| <= m - 1 && KidsFit(x, m)
  {
    assert forall j :: Down(None, j) == None;
  }

  /** With the hole at the node itself, it may hold one key fewer. */
  lemma FitsShort<V>(x: Node<V>, m: int, lo: int)
    ensures Fits(x, m, lo, Some([])) <==> lo - 1 <= |x.entries| <= m - 1 && KidsFit(x, m)
  {
    assert forall j :: Down(Some([]), j) == None;
  }

  /** With the hole at child `i`: the node within bounds, child `i` possibly one short, the other children within bounds. */
  lemma FitsAbove<V>(x: Node<V>, m: int, lo: int, i: int)
    requires Fits(x, m, lo, Some([i])) && 0 <= i < |x.children|
    ensures lo <= |x.entries| <= m - 1 && Fits(x.children[i], m, MinKeys(m), Some([]))
    ensures forall j :: 0 <= j < |x.children| && j != i ==> Fits(x.children[j], m, MinKeys(m), None)
  {
    assert Down(Some([i]), i) == Some([]) by {
      assert [i][1..] == [];
    }
    assert forall j :: j != i ==> Down(Some([i]), j) == None;
  }

  // ---------------------------------------------------------------------------
  // Joins

  /** A join is uniform of height `h` exactly when its two parts are. */
  lemma UniformJoin<V>(a: Node<V>, e: Entry<V>, b: Node<V>, h: nat)
    requires Matched(a, b) && (h == 0 <==> |a.children| == 0)
    ensures Uniform(Join(a, e, b), h) <==> Uniform(a, h) && Uniform(b, h)
  {
    var n := Join(a, e, b);
    if h > 0 {
      if Uniform(a, h) && Uniform(b, h) {
        forall j | 0 <= j < |n.children|
          ensures Uniform(n.children[j], h - 1)
        {
          if j < |a.children| {
            assert n.children[j] == a.children[j];
          } else {
            assert n.children[j] == b.children[j - |a.children|];
          }
        }
      }
      if Uniform(n, h) {
        forall j | 0 <= j < |a.children|
          ensures Uniform(a.children[j], h - 1)
        {
          assert n.children[j] == a.children[j];
        }
        forall j | 0 <= j < |b.children|
          ensures Uniform(b.children[j], h - 1)
        {
          assert n.children[|a.children| + j] == b.children[j];
        }
      }
    }
  }

  /** The children of a join fit exactly when those of its two parts do. */
  lemma KidsFitJoin<V>(a: Node<V>, e: Entry<V>, b: Node<V>, m: int)
    ensures KidsFit(Join(a, e, b), m) <==> KidsFit(a, m) && KidsFit(b, m)
  {
    var n := Join(a, e, b);
    if KidsFit(a, m) && KidsFit(b, m) {
      forall j | 0 <= j < |n.children|
        ensures Fits(n.children[j], m, MinKeys(m), None)
      {
        if j < |a.children| {
          assert n.children[j] == a.children[j];
        } else {
          assert n.children[j] == b.children[j - |a.children|];
        }
      }
    }
    if KidsFit(n, m) {
      forall j | 0 <= j < |a.children|
        ensures Fits(a.children[j], m, MinKeys(m), None)
      {
        assert n.children[j] == a.children[j];
      }
      forall j | 0 <= j < |b.children|
        ensures Fits(b.children[j], m, MinKeys(m), None)
      {
        assert n.children[|a.children| + j] == b.children[j];
      }
    }
  }

  // ---------------------------------------------------------------------------
  // Two adjacent children and their separator

  /** `par` with its children `l` and `l + 1` and the separator between them replaced. */
  function Pair<V>(par: Node<V>, l: nat, a: Node<V>, e: Entry<V>, b: Node<V>): Node<V>
    requires l < |par.entries| && l + 1 < |par.children|
  {
    Node(par.entries[l := e], par.children[l := a][l + 1 := b])
  }

  /** The in-order entries of a node around its children `l` and `l + 1`, whatever they are. */
  lemma PairElems<V>(par: Node<V>, l: nat, a: Node<V>, e: Entry<V>, b: Node<V>)
    requires |par.children| == |par.entries| + 1 && l + 1 < |par.children|
    ensures Elems(Pair(par, l, a, e, b)) == Before(par, l) + (Elems(a) + [e] + Elems(b)) + Sep(par, l + 1) + Span(par, l + 2)
  {
    var n := Pair(par, l, a, e, b);
    assert Elems(n) == Before(n, l) + Elems(a) + Sep(n, l) + Span(n, l + 1) by {
      ElemsAround(n, l);
    }
    assert Sep(n, l) == [e];
    assert Span(n, l + 1) == Elems(b) + Sep(par, l + 1) + Span(par, l + 2) by {
      assert n.children[l + 1] == b && Sep(n, l + 1) == Sep(par, l + 1);
      SpanOffset(n, par, 0, l + 2);
    }
    assert Before(n, l) == Before(par, l) by {
      assert n.children[..l] == par.children[..l];
      BeforeSame(par, n, l);
    }
    Regroup6(Before(par, l), Elems(a), [e], Elems(b), Sep(par, l + 1), Span(par, l + 2));
  }

  /** Children `l` and `l + 1` and the separator between them standing for the same entries keep those of the node. */
  lemma PairSame<V>(par: Node<V>, l: nat, a: Node<V>, e: Entry<V>, b: Node<V>)
    requires |par.children| == |par.entries| + 1 && l + 1 < |par.children|
    requires Elems(a) + [e] + Elems(b) == Elems(par.children[l]) + [par.entries[l]] + Elems(par.children[l + 1])
    ensures Elems(Pair(par, l, a, e, b)) == Elems(par)
  {
    PairElems(par, l, a, e, b);
    PairElems(par, l, par.children[l], par.entries[l], par.children[l + 1]);
    PairSelf(par, l);
  }

  /** Putting back the children and separator a node already has changes nothing. */
  lemma PairSelf<V>(par: Node<V>, l: nat)
    requires l < |par.entries| && l + 1 < |par.children|
    ensures Pair(par, l, par.children[l], par.entries[l], par.children[l + 1]) == par
  {
    var n := Pair(par, l, par.children[l], par.entries[l], par.children[l + 1]);
    assert n.entries == par.entries && n.children == par.children;
  }

  lemma PairUniform<V>(par: Node<V>, l: nat, a: Node<V>, e: Entry<V>, b: Node<V>, h: nat)
    requires Uniform(par, h) && h > 0 && l + 1 < |par.children| && Uniform(a, h - 1) && Uniform(b, h - 1)
    ensures Uniform(Pair(par, l, a, e, b), h)
  {
  }

  /** Children `l` and `l + 1` within bounds in place of a short child and its sibling: the node fits without a hole. */
  lemma PairFits<V>(par: Node<V>, l: nat, a: Node<V>, e: Entry<V>, b: Node<V>, m: int, lo: int, i: int)
    requires l + 1 < |par.children| && l < |par.entries| && (i == l || i == l + 1)
    requires Fits(par, m, lo, Some([i])) && Fits(a, m, MinKeys(m), None) && Fits(b, m, MinKeys(m), None)
    ensures Fits(Pair(par, l, a, e, b), m, lo, None)
  {
    var n := Pair(par, l, a, e, b);
    FitsAbove(par, m, lo, i);
    KidsFitFits(n, m, lo);
  }

  // ---------------------------------------------------------------------------
  // Transfer and merge on the parent

  /**
   * A transfer keeps the parent's in-order entries and leaves the short child with
   * `minKeys` keys and the sibling with one key fewer, both within bounds.
   */
  lemma TransferSound<V>(par: Node<V>, m: int, lo: int, i: nat, d: int, h: nat)
    requires m >= 3 && h > 0 && Uniform(par, h) && Fits(par, m, lo, Some([i]))
    requires (d == -1 || d == 1) && i < |par.children| && 0 <= i + d < |par.children|
    requires |par.children[i].entries| < MinKeys(m) < |par.children[i + d].entries|
    ensures |par.children| == |par.entries| + 1 && Matched(par.children[i], par.children[i + d])
    ensures var r := Transfer(par, i, d);
      Elems(r) == Elems(par) && Uniform(r, h) && Fits(r, m, lo, None) &&
      |r.children[i].entries| == MinKeys(m) && |r.children[i + d].entries| == |par.children[i + d].entries| - 1
  {
    MatchedKids(par, h, i, i + d);
    assert Uniform(Transfer(par, i, d), h) && Fits(Transfer(par, i, d), m, lo, None) by {
      FitsAbove(par, m, lo, i);
      FitsShort(par.children[i], m, MinKeys(m));
      FitsNone(par.children[i + d], m, MinKeys(m));
      TransferShape(par, m, lo, i, d, h);
    }
    TransferElems(par, i, d);
  }

  /** Two children of a uniform node are both leaves or both inner nodes. */
  lemma MatchedKids<V>(par: Node<V>, h: nat, i: int, j: int)
    requires Uniform(par, h) && h > 0 && 0 <= i < |par.children| && 0 <= j < |par.children|
    ensures |par.children| == |par.entries| + 1 && Matched(par.children[i], par.children[j])
    ensures Uniform(par.children[i], h - 1) && Uniform(par.children[j], h - 1)
  {
  }

  /** A transfer keeps the parent's in-order entries; the short child gains one entry and the sibling loses one. */
  lemma TransferElems<V>(par: Node<V>, i: nat, d: int)
    requires (d == -1 || d == 1) && i < |par.children| && 0 <= i + d < |par.children|
    requires |par.children| == |par.entries| + 1 && Matched(par.children[i], par.children[i + d])
    requires |par.children[i + d].entries| > 0
    ensures var r := Transfer(par, i, d);
      Elems(r) == Elems(par) && |r.children[i].entries| == |par.children[i].entries| + 1 &&
      |r.children[i + d].entries| == |par.children[i + d].entries| - 1
  {
    if d == 1 {
      TransferRightElems(par, i);
    } else {
      TransferLeftElems(par, i);
    }
  }

  lemma TransferRightElems<V>(par: Node<V>, i: nat)
    requires i + 1 < |par.children| == |par.entries| + 1 && Matched(par.children[i], par.children[i + 1])
    requires |par.children[i + 1].entries| > 0
    ensures var r := Transfer(par, i, 1);
      Elems(r) == Elems(par) && |r.children[i].entries| == |par.children[i].entries| + 1 &&
      |r.children[i + 1].entries| == |par.children[i + 1].entries| - 1
  {
    var n, s := par.children[i], par.children[i + 1];
    var inner := |n.children| > 0;
    var a, f, b := Join(n, par.entries[i], Leading(s, inner)), s.entries[0], WithoutFirst(s, inner);
    assert Transfer(par, i, 1) == Pair(par, i, a, f, b);
    RightElems(n, par.entries[i], s);
    PairSame(par, i, a, f, b);
  }

  lemma TransferLeftElems<V>(par: Node<V>, i: nat)
    requires 0 < i < |par.children| == |par.entries| + 1 && Matched(par.children[i], par.children[i - 1])
    requires |par.children[i - 1].entries| > 0
    ensures var r := Transfer(par, i, -1);
      Elems(r) == Elems(par) && |r.children[i].entries| == |par.children[i].entries| + 1 &&
      |r.children[i - 1].entries| == |par.children[i - 1].entries| - 1
  {
    var n, s := par.children[i], par.children[i - 1];
    var inner := |n.children| > 0;
    var a, f, b := WithoutLast(s, inner), s.entries[|s.entries| - 1], Join(Trailing(s, inner), par.entries[i - 1], n);
    assert Transfer(par, i, -1) == Pair(par, i - 1, a, f, b);
    LeftElems(s, par.entries[i - 1], n);
    PairSame(par, i - 1, a, f, b);
  }

  /** A transfer leaves a parent with a short child and a sibling to spare of the right height and within bounds. */
  lemma TransferShape<V>(par: Node<V>, m: int, lo: int, i: nat, d: int, h: nat)
    requires m >= 3 && h > 0 && Uniform(par, h) && Fits(par, m, lo, Some([i]))
    requires (d == -1 || d == 1) && i < |par.children| && 0 <= i + d < |par.children|
    requires |par.children| == |par.entries| + 1 && Matched(par.children[i], par.children[i + d])
    requires Uniform(par.children[i], h - 1) && Uniform(par.children[i + d], h - 1)
    requires MinKeys(m) - 1 <= |par.children[i].entries| < MinKeys(m) < |par.children[i + d].entries| <= m - 1
    requires KidsFit(par.children[i], m) && KidsFit(par.children[i + d], m)
    ensures Uniform(Transfer(par, i, d), h) && Fits(Transfer(par, i, d), m, lo, None)
  {
    if d == 1 {
      TransferRightShape(par, m, lo, i, h);
    } else {
      TransferLeftShape(par, m, lo, i, h);
    }
  }

  lemma TransferRightShape<V>(par: Node<V>, m: int, lo: int, i: nat, h: nat)
    requires m >= 3 && h > 0 && Uniform(par, h) && Fits(par, m, lo, Some([i]))
    requires i + 1 < |par.children| == |par.entries| + 1 && Matched(par.children[i], par.children[i + 1])
    requires Uniform(par.children[i], h - 1) && Uniform(par.children[i + 1], h - 1)
    requires MinKeys(m) - 1 <= |par.children[i].entries| < MinKeys(m) < |par.children[i + 1].entries| <= m - 1
    requires KidsFit(par.children[i], m) && KidsFit(par.children[i + 1], m)
    ensures Uniform(Transfer(par, i, 1), h) && Fits(Transfer(par, i, 1), m, lo, None)
  {
    var n, s := par.children[i], par.children[i + 1];
    var inner := |n.children| > 0;
    var a, f, b := Join(n, par.entries[i], Leading(s, inner)), s.entries[0], WithoutFirst(s, inner);
    assert Transfer(par, i, 1) == Pair(par, i, a, f, b);
    RightShape(n, par.entries[i], s, m, h - 1);
    PairShape(par, m, lo, i, i, h, a, f, b);
  }

  lemma TransferLeftShape<V>(par: Node<V>, m: int, lo: int, i: nat, h: nat)
    requires m >= 3 && h > 0 && Uniform(par, h) && Fits(par, m, lo, Some([i]))
    requires 0 < i < |par.children| == |par.entries| + 1 && Matched(par.children[i], par.children[i - 1])
    requires Uniform(par.children[i], h - 1) && Uniform(par.children[i - 1], h - 1)
    requires MinKeys(m) - 1 <= |par.children[i].entries| < MinKeys(m) < |par.children[i - 1].entries| <= m - 1
    requires KidsFit(par.children[i], m) && KidsFit(par.children[i - 1], m)
    ensures Uniform(Transfer(par, i, -1), h) && Fits(Transfer(par, i, -1), m, lo, None)
  {
    var n, s := par.children[i], par.children[i - 1];
    var inner := |n.children| > 0;
    var a, f, b := WithoutLast(s, inner), s.entries[|s.entries| - 1], Join(Trailing(s, inner), par.entries[i - 1], n);
    assert Transfer(par, i, -1) == Pair(par, i - 1, a, f, b);
    LeftShape(s, par.entries[i - 1], n, m, h - 1);
    PairShape(par, m, lo, i - 1, i, h, a, f, b);
  }

  /** Children `l` and `l + 1` of the right heights and within bounds in place of a short child and its sibling. */
  lemma PairShape<V>(par: Node<V>, m: int, lo: int, l: nat, i: nat, h: nat, a: Node<V>, e: Entry<V>, b: Node<V>)
    requires m >= 3 && h > 0 && Uniform(par, h) && Fits(par, m, lo, Some([i]))
    requires l + 1 < |par.children| && l < |par.entries| && (i == l || i == l + 1)
    requires Uniform(a, h - 1) && Uniform(b, h - 1) && KidsFit(a, m) && KidsFit(b, m)
    requires MinKeys(m) <= |a.entries| <= m - 1 && MinKeys(m) <= |b.entries| <= m - 1
    ensures Uniform(Pair(par, l, a, e, b), h) && Fits(Pair(par, l, a, e, b), m, lo, None)
  {
    PairUniform(par, l, a, e, b, h);
    FitsNone(a, m, MinKeys(m));
    FitsNone(b, m, MinKeys(m));
    PairFits(par, l, a, e, b, m, lo, i);
  }

  /** The first child of a right sibling, as a node without entries; nothing for a leaf. */
  function Leading<V>(s: Node<V>, inner: bool): Node<V>
    requires inner ==> |s.children| > 0
  {
    Node([], if inner then [s.children[0]] else [])
  }

  /** A right sibling without its first entry, and without its first child when inner. */
  function WithoutFirst<V>(s: Node<V>, inner: bool): Node<V>
    requires |s.entries| > 0 && (inner ==> |s.children| > 0)
  {
    Node(s.entries[1..], if inner then s.children[1..] else s.children)
  }

  /** The last child of a left sibling, as a node without entries; nothing for a leaf. */
  function Trailing<V>(s: Node<V>, inner: bool): Node<V>
    requires inner ==> |s.children| > 0
  {
    Node([], if inner then [s.children[|s.children| - 1]] else [])
  }

  /** A left sibling without its last entry, and without its last child when inner. */
  function WithoutLast<V>(s: Node<V>, inner: bool): Node<V>
    requires |s.entries| > 0 && (inner ==> |s.children| > 0)
  {
    Node(s.entries[..|s.entries| - 1], if inner then s.children[..|s.children| - 1] else s.children)
  }

  /** A sibling is its first child, first entry and the rest. */
  lemma RightSplit<V>(s: Node<V>, inner: bool)
    requires |s.entries| > 0 && (if inner then |s.children| == |s.entries| + 1 else |s.children| == 0)
    ensures s == Join(Leading(s, inner), s.entries[0], WithoutFirst(s, inner))
    ensures Matched(Leading(s, inner), WithoutFirst(s, inner))
  {
    assert s.entries == [] + [s.entries[0]] + s.entries[1..];
    if inner {
      assert s.children == [s.children[0]] + s.children[1..];
    }
  }

  /** A sibling is the rest, its last entry and its last child. */
  lemma LeftSplit<V>(s: Node<V>, inner: bool)
    requires |s.entries| > 0 && (if inner then |s.children| == |s.entries| + 1 else |s.children| == 0)
    ensures s == Join(WithoutLast(s, inner), s.entries[|s.entries| - 1], Trailing(s, inner))
    ensures Matched(WithoutLast(s, inner), Trailing(s, inner))
  {
    assert s.entries == s.entries[..|s.entries| - 1] + [s.entries[|s.entries| - 1]] + [];
    if inner {
      assert s.children == s.children[..|s.children| - 1] + [s.children[|s.children| - 1]];
    }
  }

  /**
   * The short child `n` taking the separator `e` and the first child of its right sibling
   * `s`, whose first entry moves up: the in-order run stays the same and the entry counts
   * move by one.
   */
  lemma RightElems<V>(n: Node<V>, e: Entry<V>, s: Node<V>)
    requires Matched(n, s) && |s.entries| > 0
    ensures var inner := |n.children| > 0; var x, s' := Leading(s, inner), WithoutFirst(s, inner);
      Elems(Join(n, e, x)) + [s.entries[0]] + Elems(s') == Elems(n) + [e] + Elems(s) &&
      |Join(n, e, x).entries| == |n.entries| + 1 && |s'.entries| == |s.entries| - 1
  {
    var inner := |n.children| > 0;
    var x, s' := Leading(s, inner), WithoutFirst(s, inner);
    var f := s.entries[0];
    RightSplit(s, inner);
    JoinElems(n, e, x);
    JoinElems(x, f, s');
    Regroup5(Elems(n), [e], Elems(x), [f], Elems(s'));
  }

  /** The same move keeps heights and the bounds of the children. */
  lemma RightShape<V>(n: Node<V>, e: Entry<V>, s: Node<V>, m: int, h: nat)
    requires Matched(n, s) && (h == 0 <==> |n.children| == 0) && |s.entries| > 0
    requires Uniform(n, h) && Uniform(s, h) && KidsFit(n, m) && KidsFit(s, m)
    ensures var inner := |n.children| > 0; var x, s' := Leading(s, inner), WithoutFirst(s, inner);
      Uniform(Join(n, e, x), h) && Uniform(s', h) && KidsFit(Join(n, e, x), m) && KidsFit(s', m)
  {
    var inner := |n.children| > 0;
    var x, s' := Leading(s, inner), WithoutFirst(s, inner);
    var f := s.entries[0];
    RightSplit(s, inner);
    assert Uniform(Join(n, e, x), h) && Uniform(s', h) by {
      UniformJoin(x, f, s', h);
      UniformJoin(n, e, x, h);
    }
    assert KidsFit(Join(n, e, x), m) && KidsFit(s', m) by {
      KidsFitJoin(x, f, s', m);
      KidsFitJoin(n, e, x, m);
    }
  }

  /** The mirror image of `RightElems`: the short child `n` takes the separator and the last child of its left sibling `s`. */
  lemma LeftElems<V>(s: Node<V>, e: Entry<V>, n: Node<V>)
    requires Matched(s, n) && |s.entries| > 0
    ensures var inner := |n.children| > 0; var y, s' := Trailing(s, inner), WithoutLast(s, inner);
      Elems(s') + [s.entries[|s.entries| - 1]] + Elems(Join(y, e, n)) == Elems(s) + [e] + Elems(n) &&
      |Join(y, e, n).entries| == |n.entries| + 1 && |s'.entries| == |s.entries| - 1
  {
    var inner := |n.children| > 0;
    var y, s' := Trailing(s, inner), WithoutLast(s, inner);
    var f := s.entries[|s.entries| - 1];
    LeftSplit(s, inner);
    JoinElems(s', f, y);
    JoinElems(y, e, n);
    Regroup5(Elems(s'), [f], Elems(y), [e], Elems(n));
  }

  /** The mirror image of `RightShape`. */
  lemma LeftShape<V>(s: Node<V>, e: Entry<V>, n: Node<V>, m: int, h: nat)
    requires Matched(s, n) && (h == 0 <==> |n.children| == 0) && |s.entries| > 0
    requires Uniform(n, h) && Uniform(s, h) && KidsFit(n, m) && KidsFit(s, m)
    ensures var inner := |n.children| > 0; var y, s' := Trailing(s, inner), WithoutLast(s, inner);
      Uniform(Join(y, e, n), h) && Uniform(s', h) && KidsFit(Join(y, e, n), m) && KidsFit(s', m)
  {
    var inner := |n.children| > 0;
    var y, s' := Trailing(s, inner), WithoutLast(s, inner);
    var f := s.entries[|s.entries| - 1];
    LeftSplit(s, inner);
    assert Uniform(Join(y, e, n), h) && Uniform(s', h) by {
      UniformJoin(s', f, y, h);
      UniformJoin(y, e, n, h);
    }
    assert KidsFit(Join(y, e, n), m) && KidsFit(s', m) by {
      KidsFitJoin(s', f, y, m);
      KidsFitJoin(y, e, n, m);
    }
  }

  /**
   * A merge keeps the parent's in-order entries; the merged child holds the keys of both
   * children and the separator, within bounds, and the parent one key fewer.
   */
  lemma MergeSound<V>(par: Node<V>, m: int, lo: int, i: nat, d: int, h: nat)
    requires m >= 3 && h > 0 && Uniform(par, h) && Fits(par, m, lo, Some([i]))
    requires (d == -1 || d == 1) && i < |par.children| && 0 <= i + d < |par.children|
    requires |par.children[i].entries| < MinKeys(m) && |par.children[i + d].entries| <= MinKeys(m)
    ensures var l := MergeSlot(i, d); 0 <= l < |par.entries| && l + 1 < |par.children|
    ensures var l := MergeSlot(i, d); var r := Merge(par, l);
      Elems(r) == Elems(par) && Uniform(r, h) && KidsFit(r, m) && |r.entries| == |par.entries| - 1 &&
      |r.children[l].entries| == |par.children[i].entries| + 1 + |par.children[i + d].entries|
  {
    var l := MergeSlot(i, d);
    MatchedKids(par, h, l, l + 1);
    var a, e, b := par.children[l], par.entries[l], par.children[l + 1];
    assert Elems(Merge(par, l)) == Elems(par) by {
      MergeElems(par, l);
    }
    assert Uniform(Merge(par, l), h) by {
      UniformJoin(a, e, b, h - 1);
      MergeUniform(par, l, h);
    }
    assert KidsFit(Merge(par, l), m) by {
      FitsAbove(par, m, lo, i);
      FitsShort(par.children[i], m, MinKeys(m));
      FitsNone(par.children[i + d], m, MinKeys(m));
      KidsFitJoin(a, e, b, m);
      FitsNone(Join(a, e, b), m, MinKeys(m));
      MergeKidsFit(par, l, m, lo, i);
    }
  }

  /** The in-order entries of a merge are those of the node. */
  lemma MergeElems<V>(par: Node<V>, l: nat)
    requires |par.children| == |par.entries| + 1 && l + 1 < |par.children|
    requires Matched(par.children[l], par.children[l + 1])
    ensures Elems(Merge(par, l)) == Elems(par)
  {
    var a, e, b := par.children[l], par.entries[l], par.children[l + 1];
    MergeAround(par, l);
    JoinElems(a, e, b);
    PairElems(par, l, a, e, b);
    PairSelf(par, l);
  }

  /** The in-order entries of a merge: those before the two children, the join, and those after. */
  lemma MergeAround<V>(par: Node<V>, l: nat)
    requires |par.children| == |par.entries| + 1 && l + 1 < |par.children|
    ensures var j := Join(par.children[l], par.entries[l], par.children[l + 1]);
      Elems(Merge(par, l)) == Before(par, l) + Elems(j) + Sep(par, l + 1) + Span(par, l + 2)
  {
    var n := Merge(par, l);
    assert n.children[l] == Join(par.children[l], par.entries[l], par.children[l + 1]);
    ElemsAround(n, l);
    assert Before(n, l) == Before(par, l) by {
      assert n.children[..l] == par.children[..l];
      BeforeSame(par, n, l);
    }
    assert Sep(n, l) == Sep(par, l + 1);
    assert Span(n, l + 1) == Span(par, l + 2) by {
      SpanOffset(par, n, 1, l + 1);
    }
  }

  lemma MergeUniform<V>(par: Node<V>, l: nat, h: nat)
    requires Uniform(par, h) && h > 0 && l + 1 < |par.children|
    requires Uniform(Join(par.children[l], par.entries[l], par.children[l + 1]), h - 1)
    ensures Uniform(Merge(par, l), h)
  {
    var n := Merge(par, l);
    forall j | 0 <= j < |n.children|
      ensures Uniform(n.children[j], h - 1)
    {
      if j > l {
        assert n.children[j] == par.children[j + 1];
      }
    }
  }

  lemma MergeKidsFit<V>(par: Node<V>, l: nat, m: int, lo: int, i: int)
    requires l + 1 < |par.children| && l < |par.entries| && (i == l || i == l + 1)
    requires Fits(par, m, lo, Some([i]))
    requires Fits(Join(par.children[l], par.entries[l], par.children[l + 1]), m, MinKeys(m), None)
    ensures KidsFit(Merge(par, l), m)
  {
    var n := Merge(par, l);
    FitsAbove(par, m, lo, i);
    forall j | 0 <= j < |n.children|
      ensures Fits(n.children[j], m, MinKeys(m), None)
    {
      if j > l {
        assert n.children[j] == par.children[j + 1];
      }
    }
  }

  // ---------------------------------------------------------------------------
  // The steps on the whole tree

  /** The parent of the short node: within bounds, its child `i` possibly one key short. */
  lemma ParentOf<V>(t: Node<V>, m: int, p: seq<int>, h: nat)
    requires Underflowing(t, m, p) && h == Height(t)
    ensures var q, i := p[..|p| - 1], p[|p| - 1];
      ValidPath(t, q) && 0 <= i < |At(t, q).children| && At(t, p) == At(t, q).children[i] &&
      |q| < h && Uniform(At(t, q), h - |q|) && Fits(At(t, q), m, LoAt(m, 1, q), Some([i])) &&
      HoleUnder(Some(p), q) && |At(t, q).entries| >= 1
  {
    var q, i := p[..|p| - 1], p[|p| - 1];
    PathParent(t, p);
    UniformAt(t, h, p);
    UniformAt(t, h, q);
    FitsAt(t, m, 1, Some(p), q);
    assert p[..|q|] == q;
    assert DownPath(Some(p), q) == Some([i]) by {
      assert p[|q|..] == [i];
    }
    FitsAbove(At(t, q), m, LoAt(m, 1, q), i);
  }

  lemma UnderflowFacts<V>(t: Node<V>, m: int, p: seq<int>)
    requires Underflowing(t, m, p)
    ensures var q, i := p[..|p| - 1], p[|p| - 1];
      ValidPath(t, q) && 0 <= i < |At(t, q).children| && At(t, p) == At(t, q).children[i] &&
      |At(t, q).children| == |At(t, q).entries| + 1 && |At(t, q).children| >= 2 &&
      forall j :: 0 <= j < |At(t, q).children| ==> Matched(At(t, q).children[i], At(t, q).children[j])
  {
    var q, i := p[..|p| - 1], p[|p| - 1];
    var h := Height(t);
    ParentOf(t, m, p, h);
    var par := At(t, q);
    forall j | 0 <= j < |par.children|
      ensures Matched(par.children[i], par.children[j])
    {
      MatchedKids(par, h - |q|, i, j);
    }
  }

  /** A merge that leaves a parent below the root short hands the underflow on to the parent. */
  lemma MergeUnderflow<V>(t: Node<V>, m: int, p: seq<int>, q: seq<int>, i: nat, d: int)
    requires Underflowing(t, m, p) && q == p[..|p| - 1] && i == p[|p| - 1]
    requires ValidPath(t, q) && i < |At(t, q).children| && |At(t, q).children| == |At(t, q).entries| + 1
    requires |At(t, q).children| >= 2 && d == FullestSibling(At(t, q), i)
    requires |At(t, q).children[i + d].entries| <= MinKeys(m)
    requires |q| > 0 && |Merge(At(t, q), MergeSlot(i, d)).entries| < MinKeys(m)
    ensures Underflowing(Replace(t, q, Merge(At(t, q), MergeSlot(i, d))), m, q)
    ensures Height(Replace(t, q, Merge(At(t, q), MergeSlot(i, d)))) == Height(t)
    ensures Elems(Replace(t, q, Merge(At(t, q), MergeSlot(i, d)))) == Elems(t)
  {
    var h := Height(t);
    ParentOf(t, m, p, h);
    var par := At(t, q);
    MergeSound(par, m, LoAt(m, 1, q), i, d, h - |q|);
    var par' := Merge(par, MergeSlot(i, d));
    var t' := Replace(t, q, par');
    UniformReplace(t, h, q, par');
    UniformHeight(t', h);
    AtReplace(t, q, par');
    FitsShort(par', m, MinKeys(m));
    FitsReplace(t, m, 1, Some(p), q, par', Some([]));
    assert Lift(q, Some([])) == Some(q) by {
      assert q + [] == q;
    }
    ReplaceElems(t, q, par');
  }

  /** A subtree with the same in-order entries in place of the one at `q` keeps those of the tree. */
  lemma ReplaceElems<V>(t: Node<V>, q: seq<int>, x: Node<V>)
    requires ValidPath(t, q) && Elems(x) == Elems(At(t, q))
    ensures Elems(Replace(t, q, x)) == Elems(t)
  {
    ElemsReplace(t, q, x);
    ElemsAt(t, q);
  }

  /** A repaired parent of the right height and within bounds in place of the one at `q` leaves a valid tree. */
  lemma RepairedParent<V>(t: Node<V>, m: int, p: seq<int>, x: Node<V>)
    requires Underflowing(t, m, p)
    requires var q := p[..|p| - 1]; ValidPath(t, q) && Elems(x) == Elems(At(t, q))
    requires var q := p[..|p| - 1]; |q| <= Height(t) && Uniform(x, Height(t) - |q|) && Fits(x, m, LoAt(m, 1, q), None)
    ensures var r := Replace(t, p[..|p| - 1], x);
      Elems(r) == Elems(t) && Fits(r, m, 1, None) && Uniform(r, Height(t))
  {
    var q := p[..|p| - 1];
    ParentOf(t, m, p, Height(t));
    ReplaceElems(t, q, x);
    FitsReplace(t, m, 1, Some(p), q, x, None);
    UniformReplace(t, Height(t), q, x);
  }

  /** A leaf below the root left short by a delete is what `handleUnderflow` repairs. */
  lemma LeafUnderflow<V>(t: Node<V>, m: int, p: seq<int>, i: nat)
    requires m >= 3 && Uniform(t, Height(t)) && Fits(t, m, 1, None)
    requires ValidPath(t, p) && i < |At(t, p).entries| && |At(t, p).children| == 0 && |p| > 0
    requires |At(t, p).entries| - 1 < MinKeys(m)
    ensures Underflowing(Replace(t, p, At(t, p).(entries := At(t, p).entries[..i] + At(t, p).entries[i + 1..])), m, p)
    ensures Height(Replace(t, p, At(t, p).(entries := At(t, p).entries[..i] + At(t, p).entries[i + 1..]))) == Height(t)
  {
    var h := Height(t);
    var n := At(t, p);
    var x := n.(entries := n.entries[..i] + n.entries[i + 1..]);
    UniformAt(t, h, p);
    FitsAt(t, m, 1, None, p);
    FitsNone(n, m, MinKeys(m));
    FitsShort(x, m, MinKeys(m));
    FitsReplace(t, m, 1, None, p, x, Some([]));
    assert Lift(p, Some([])) == Some(p) by {
      assert p + [] == p;
    }
    UniformReplace(t, h, p, x);
    UniformHeight(Replace(t, p, x), h);
    AtReplace(t, p, x);
  }

  // ---------------------------------------------------------------------------
  // handleUnderflow keeps a valid tree

  /** A tree of the height of `t`, or one lower when the root of `t` held a single key. */
  ghost predicate Kept<V>(r: Node<V>, t: Node<V>) {
    Uniform(r, Height(t)) || (Height(t) > 0 && |t.entries| == 1 && Uniform(r, Height(t) - 1))
  }

  /**
   * `handleUnderflow` repairs the short node: the in-order entries stay the same, every
   * node is within bounds again, and the height drops only when the merge empties a
   * root that held a single key.
   */
  lemma {:induction false} HandleUnderflowSound<V>(t: Node<V>, m: int, p: seq<int>)
    requires Underflowing(t, m, p)
    ensures var r := HandleUnderflow(t, m, p);
      Elems(r) == Elems(t) && Fits(r, m, 1, None) && Kept(r, t)
    decreases |p|, 2
  {
    UnderflowFacts(t, m, p);
    var q, i := p[..|p| - 1], p[|p| - 1];
    var par := At(t, q);
    var d := FullestSibling(par, i);
    assert AtParent(t, m, p, q, i, d);
    if |par.children[i + d].entries| > MinKeys(m) {
      UnderflowTransfer(t, m, p, q, i, d);
      TransferCase(t, m, p, q, i, d);
    } else {
      MergeSide(t, m, p, q, i, d);
    }
  }

  /** No sibling has a key to spare: the short node is merged with one. */
  lemma MergeSide<V>(t: Node<V>, m: int, p: seq<int>, q: seq<int>, i: int, d: int)
    requires AtParent(t, m, p, q, i, d) && |At(t, q).children[i + d].entries| <= MinKeys(m)
    ensures var r := HandleUnderflow(t, m, p);
      Elems(r) == Elems(t) && Fits(r, m, 1, None) && Kept(r, t)
    decreases |p|, 1
  {
    var par' := Merge(At(t, q), MergeSlot(i, d));
    if |q| == 0 && |par'.entries| == 0 {
      CollapseSide(t, m, p, i, d);
    } else if |q| == 0 || |par'.entries| >= MinKeys(m) {
      UnderflowMerge(t, m, p, q, i, d);
      MergeCase(t, m, p, q, i, d);
    } else {
      UpCase(t, m, p, q, i, d);
    }
  }

  /** The short node at `p` is child `i` of the node at `q`, and its fuller sibling is on side `d`. */
  ghost predicate AtParent<V>(t: Node<V>, m: int, p: seq<int>, q: seq<int>, i: int, d: int) {
    Underflowing(t, m, p) && q == p[..|p| - 1] && i == p[|p| - 1] &&
    ValidPath(t, q) && 0 <= i < |At(t, q).children| && |At(t, q).children| >= 2 &&
    |At(t, q).children| == |At(t, q).entries| + 1 && d == FullestSibling(At(t, q), i) &&
    Matched(At(t, q).children[i], At(t, q).children[i + d])
  }

  /** A sibling with keys to spare: a transfer mends the short node. */
  lemma TransferCase<V>(t: Node<V>, m: int, p: seq<int>, q: seq<int>, i: int, d: int)
    requires AtParent(t, m, p, q, i, d) && |At(t, q).children[i + d].entries| > MinKeys(m)
    ensures var r := Replace(t, q, Transfer(At(t, q), i, d));
      Elems(r) == Elems(t) && Fits(r, m, 1, None) && Uniform(r, Height(t)) && Kept(r, t)
  {
    var h := Height(t);
    var par := At(t, q);
    ParentOf(t, m, p, h);
    TransferSound(par, m, LoAt(m, 1, q), i, d, h - |q|);
    RepairedParent(t, m, p, Transfer(par, i, d));
  }

  /** The transfer branch of `handleUnderflow`, unfolded. */
  lemma UnderflowTransfer<V>(t: Node<V>, m: int, p: seq<int>, q: seq<int>, i: int, d: int)
    requires AtParent(t, m, p, q, i, d) && |At(t, q).children[i + d].entries| > MinKeys(m)
    ensures HandleUnderflow(t, m, p) == Replace(t, q, Transfer(At(t, q), i, d))
  {
  }

  /** No sibling to spare and a parent that stays within bounds, or is the root and keeps a key. */
  lemma MergeCase<V>(t: Node<V>, m: int, p: seq<int>, q: seq<int>, i: int, d: int)
    requires AtParent(t, m, p, q, i, d) && |At(t, q).children[i + d].entries| <= MinKeys(m)
    requires var n := |Merge(At(t, q), MergeSlot(i, d)).entries|; (|q| == 0 && n > 0) || n >= MinKeys(m)
    ensures var r := Replace(t, q, Merge(At(t, q), MergeSlot(i, d)));
      Elems(r) == Elems(t) && Fits(r, m, 1, None) && Uniform(r, Height(t)) && Kept(r, t)
  {
    var h := Height(t);
    var par := At(t, q);
    ParentOf(t, m, p, h);
    var lo := LoAt(m, 1, q);
    MergeSound(par, m, lo, i, d, h - |q|);
    var par' := Merge(par, MergeSlot(i, d));
    assert Fits(par', m, lo, None) by {
      FitsAbove(par, m, lo, i);
      FitsNone(par', m, lo);
    }
    RepairedParent(t, m, p, par');
  }

  /** The merge branch of `handleUnderflow` that stops at the parent, unfolded. */
  lemma UnderflowMerge<V>(t: Node<V>, m: int, p: seq<int>, q: seq<int>, i: int, d: int)
    requires AtParent(t, m, p, q, i, d) && |At(t, q).children[i + d].entries| <= MinKeys(m)
    requires var n := |Merge(At(t, q), MergeSlot(i, d)).entries|; (|q| == 0 && n > 0) || n >= MinKeys(m)
    ensures HandleUnderflow(t, m, p) == Replace(t, q, Merge(At(t, q), MergeSlot(i, d)))
  {
  }

  /** A merge that empties a root with a single key: the merged node becomes the root, one level lower. */
  lemma CollapseCase<V>(t: Node<V>, m: int, p: seq<int>, i: int, d: int)
    requires AtParent(t, m, p, [], i, d) && |t.children[i + d].entries| <= MinKeys(m)
    requires |Merge(t, MergeSlot(i, d)).entries| == 0
    ensures |Merge(t, MergeSlot(i, d)).children| == 1
    ensures var r := Merge(t, MergeSlot(i, d)).children[0];
      Elems(r) == Elems(t) && Fits(r, m, 1, None) && Height(t) > 0 && |t.entries| == 1 && Uniform(r, Height(t) - 1)
  {
    var h := Height(t);
    ParentOf(t, m, p, h);
    MergeSound(t, m, 1, i, d, h);
    var par' := Merge(t, MergeSlot(i, d));
    var r := par'.children[0];
    assert Elems(par') == Elems(r) by {
      ElemsAround(par', 0);
    }
    FitsWeaken(r, m, MinKeys(m), 1);
  }

  /** The merge empties the root: its one child is what is left, which `Kept` allows. */
  lemma CollapseSide<V>(t: Node<V>, m: int, p: seq<int>, i: int, d: int)
    requires AtParent(t, m, p, [], i, d) && |t.children[i + d].entries| <= MinKeys(m)
    requires |Merge(t, MergeSlot(i, d)).entries| == 0
    ensures var r := HandleUnderflow(t, m, p);
      Elems(r) == Elems(t) && Fits(r, m, 1, None) && Kept(r, t)
  {
    CollapseCase(t, m, p, i, d);
    UnderflowCollapse(t, m, p, i, d);
    var r := Merge(t, MergeSlot(i, d)).children[0];
    assert Kept(r, t);
  }

  /** The collapsing branch of `handleUnderflow`, unfolded. */
  lemma UnderflowCollapse<V>(t: Node<V>, m: int, p: seq<int>, i: int, d: int)
    requires AtParent(t, m, p, [], i, d) && |t.children[i + d].entries| <= MinKeys(m)
    requires |Merge(t, MergeSlot(i, d)).entries| == 0 && |Merge(t, MergeSlot(i, d)).children| == 1
    ensures HandleUnderflow(t, m, p) == Merge(t, MergeSlot(i, d)).children[0]
  {
  }

  /** A merge that leaves a parent below the root short: the repair goes on at the parent. */
  lemma UpCase<V>(t: Node<V>, m: int, p: seq<int>, q: seq<int>, i: int, d: int)
    requires AtParent(t, m, p, q, i, d) && |At(t, q).children[i + d].entries| <= MinKeys(m)
    requires |q| > 0 && |Merge(At(t, q), MergeSlot(i, d)).entries| < MinKeys(m)
    ensures var r := HandleUnderflow(t, m, p);
      Elems(r) == Elems(t) && Fits(r, m, 1, None) && Kept(r, t)
    decreases |p|, 0
  {
    var t' := Replace(t, q, Merge(At(t, q), MergeSlot(i, d)));
    MergeUnderflow(t, m, p, q, i, d);
    UnderflowUp(t, m, p, q, i, d);
    HandleUnderflowSound(t', m, q);
    KeptSame(HandleUnderflow(t', m, q), t', t);
  }

  /** The recursive call of `handleUnderflow`, one step unfolded. */
  lemma UnderflowUp<V>(t: Node<V>, m: int, p: seq<int>, q: seq<int>, i: int, d: int)
    requires AtParent(t, m, p, q, i, d) && |At(t, q).children[i + d].entries| <= MinKeys(m)
    requires |q| > 0 && |Merge(At(t, q), MergeSlot(i, d)).entries| < MinKeys(m)
    requires Underflowing(Replace(t, q, Merge(At(t, q), MergeSlot(i, d))), m, q)
    ensures HandleUnderflow(t, m, p) == HandleUnderflow(Replace(t, q, Merge(At(t, q), MergeSlot(i, d))), m, q)
  {
  }

  /** `Kept` depends on the tree before only through its height and root key count. */
  lemma KeptSame<V>(r: Node<V>, t: Node<V>, t': Node<V>)
    requires Kept(r, t) && Height(t) == Height(t') && |t.entries| == |t'.entries|
    ensures Kept(r, t')
  {
  }

  /**
   * `findInOrderPredecessorNode` on a subtree of a valid tree: it goes down the last
   * children to the rightmost leaf, whose last entry is the last in-order entry of the subtree.
   */
  lemma {:induction false} PredecessorLeaf<V>(c: Node<V>, m: int, lo: int, h: nat)
    requires Uniform(c, h) && Fits(c, m, lo, None) && lo >= 1 && MinKeys(m) >= 1
    ensures var s := PredecessorPath(c); |s| == h && |At(c, s).children| == 0 && |At(c, s).entries| >= LoAt(m, lo, s)
    ensures var s := PredecessorPath(c); Post(c, s) == [] && Elems(c) == Pre(c, s) + At(c, s).entries
    decreases c
  {
    if |c.children| == 0 {
      assert PredecessorPath(c) == [];
    } else {
      var j := |c.children| - 1;
      var lc := c.children[j];
      assert Fits(lc, m, MinKeys(m), None) && |lc.entries| > 0 by {
        FitsNone(c, m, lo);
        FitsNone(lc, m, MinKeys(m));
      }
      PredecessorLeaf(lc, m, MinKeys(m), h - 1);
      PredecessorStep(c);
      LastChildPath(c, PredecessorPath(lc));
    }
  }

  /** A path ending at a leaf through the last child, seen from the node above. */
  lemma LastChildPath<V>(c: Node<V>, s': seq<int>)
    requires |c.children| == |c.entries| + 1 && ValidPath(c.children[|c.children| - 1], s')
    requires var lc := c.children[|c.children| - 1]; Post(lc, s') == [] && Elems(lc) == Pre(lc, s') + At(lc, s').entries
    ensures var s := [|c.children| - 1] + s'; ValidPath(c, s) && At(c, s) == At(c.children[|c.children| - 1], s')
    ensures var s := [|c.children| - 1] + s'; Post(c, s) == [] && Elems(c) == Pre(c, s) + At(c, s).entries
  {
    var j := |c.children| - 1;
    var lc := c.children[j];
    ConsPath(c, j, s');
    assert Sep(c, j) == [] && Span(c, j + 1) == [];
    ElemsAround(c, j);
    AppendAssoc(Before(c, j), Pre(lc, s'), At(lc, s').entries);
  }

  lemma PredecessorStep<V>(c: Node<V>)
    requires |c.children| > 0 && |c.children[|c.children| - 1].entries| > 0
    ensures PredecessorPath(c) == [|c.children| - 1] + PredecessorPath(c.children[|c.children| - 1])
  {
  }

  /** Below an inner node of a valid tree, the in-order predecessor of entry `i` lies in a non-empty leaf. */
  lemma PredecessorFacts<V>(t: Node<V>, m: int, p: seq<int>, i: nat)
    requires m >= 3 && Uniform(t, Height(t)) && Fits(t, m, 1, None)
    requires ValidPath(t, p) && i < |At(t, p).entries| && |At(t, p).children| > 0
    ensures i < |At(t, p).children|
    ensures var r := [i] + PredecessorPath(At(t, p).children[i]);
      ValidPath(t, p + r) && |At(t, p + r).children| == 0 && |At(t, p + r).entries| > 0
    ensures var c := At(t, p).children[i]; var r := [i] + PredecessorPath(c);
      At(t, p + r) == At(c, PredecessorPath(c))
    ensures var c := At(t, p).children[i]; var s := PredecessorPath(c);
      Post(c, s) == [] && Elems(c) == Pre(c, s) + At(c, s).entries
  {
    var h := Height(t);
    var n := At(t, p);
    UniformAt(t, h, p);
    FitsAt(t, m, 1, None, p);
    FitsNone(n, m, LoAt(m, 1, p));
    var c := n.children[i];
    var s := PredecessorPath(c);
    PredecessorLeaf(c, m, MinKeys(m), h - |p| - 1);
    assert ValidPath(n, [i] + s) && At(n, [i] + s) == At(c, s) by {
      assert ([i] + s)[1..] == s;
    }
    PathConcat(t, p, [i] + s);
  }

  /**
   * `findInOrderPredecessorNode(node.children[i])` ends at a non-empty leaf whose last
   * entry is the last of the in-order entries before entry `i`: its in-order predecessor.
   */
  lemma PredecessorSound<V>(t: Node<V>, m: int, p: seq<int>, i: nat)
    requires DeleteArgs(t, m, p, i) && |At(t, p).children| > 0
    ensures var r := [i] + PredecessorPath(At(t, p).children[i]);
      ValidPath(t, p + r) && |At(t, p + r).children| == 0 && |At(t, p + r).entries| > 0
    ensures var n := At(t, p); var leaf := At(t, p + ([i] + PredecessorPath(n.children[i])));
      |Left(n, i)| > 0 && Left(n, i)[|Left(n, i)| - 1] == leaf.entries[|leaf.entries| - 1]
  {
    var n := At(t, p);
    PredecessorFacts(t, m, p, i);
    var c := n.children[i];
    var s := PredecessorPath(c);
    var leaf := At(c, s);
    SplitLast(leaf.entries);
    var ls, e := leaf.entries[..|leaf.entries| - 1], leaf.entries[|leaf.entries| - 1];
    assert Left(n, i) == (Before(n, i) + (Pre(c, s) + ls)) + [e] by {
      AppendAssoc(Pre(c, s), ls, [e]);
      AppendAssoc(Before(n, i), Pre(c, s) + ls, [e]);
    }
  }

  /**
   * Overwriting entry `i` of the node at `p` keeps a valid tree valid and leaves every
   * node strictly below `p` where it was.
   */
  lemma Overwrite<V>(t: Node<V>, m: int, p: seq<int>, i: nat, e: Entry<V>, r: seq<int>)
    requires m >= 3 && Uniform(t, Height(t)) && Fits(t, m, 1, None)
    requires ValidPath(t, p) && i < |At(t, p).entries| && ValidPath(t, p + r) && |r| > 0
    ensures var n := At(t, p); var t' := Replace(t, p, n.(entries := n.entries[i := e]));
      Uniform(t', Height(t')) && Fits(t', m, 1, None) && ValidPath(t', p + r) && At(t', p + r) == At(t, p + r)
    ensures var n := At(t, p); Height(Replace(t, p, n.(entries := n.entries[i := e]))) == Height(t)
  {
    var h := Height(t);
    var n := At(t, p);
    var y := n.(entries := n.entries[i := e]);
    var t' := Replace(t, p, y);
    UniformAt(t, h, p);
    FitsAt(t, m, 1, None, p);
    assert Uniform(t', h) by {
      UniformReplace(t, h, p, y);
    }
    UniformHeight(t', h);
    assert Fits(t', m, 1, None) by {
      FitsReplace(t, m, 1, None, p, y, None);
    }
    assert ValidPath(t', p + r) && At(t', p + r) == At(t, p + r) by {
      PathConcat(t, p, r);
      AtReplace(t, p, y);
      PathConcat(t', p, r);
    }
  }

  // ---------------------------------------------------------------------------
  // delete keeps a valid tree and drops exactly one entry

  /** What `delete(node:at:)` is called on: a B-tree of order `m` and an entry `i` of the node at `p`. */
  ghost predicate DeleteArgs<V>(t: Node<V>, m: int, p: seq<int>, i: nat) {
    m >= 3 && Uniform(t, Height(t)) && Fits(t, m, 1, None) && ValidPath(t, p) && i < |At(t, p).entries| &&
    (|At(t, p).children| == 0 || |At(t, p).children| == |At(t, p).entries| + 1)
  }

  /** The in-order entries of `t` without entry `i` of the node at `p`. */
  ghost function Without<V>(t: Node<V>, p: seq<int>, i: nat): seq<Entry<V>>
    requires ValidPath(t, p) && i < |At(t, p).entries|
    requires |At(t, p).children| == 0 || |At(t, p).children| == |At(t, p).entries| + 1
  {
    var n := At(t, p);
    (Pre(t, p) + Left(n, i)) + (Right(n, i) + Post(t, p))
  }

  /**
   * The outcome of `delete(node:at:)` on `t`: the entries `want`, no tree exactly when
   * `t` was a leaf root with a single key, and otherwise a tree within the bounds of
   * order `m`, of the height of `t` or one lower after a root with one key.
   */
  ghost predicate Deleted<V>(r: Option<Node<V>>, t: Node<V>, m: int, want: seq<Entry<V>>) {
    EntriesOf(r) == want && (r.None? <==> |t.children| == 0 && |t.entries| == 1) &&
    (r.Some? ==> Fits(r.value, m, 1, None) && Kept(r.value, t))
  }

  /** `delete(node:at:)` removes entry `i` of the node at `p` and keeps the tree a B-tree. */
  lemma {:induction false} DeleteAtSound<V>(t: Node<V>, m: int, p: seq<int>, i: nat)
    requires DeleteArgs(t, m, p, i)
    ensures Deleted(DeleteAt(t, m, p, i), t, m, Without(t, p, i))
    decreases |At(t, p).children|, 1
  {
    if |At(t, p).children| > 0 {
      DeleteInnerSound(t, m, p, i);
    } else if |p| == 0 {
      DeleteRootLeaf(t, m, i);
    } else if |At(t, p).entries| - 1 >= MinKeys(m) {
      DeleteLeafKept(t, m, p, i);
    } else {
      DeleteLeafShort(t, m, p, i);
    }
  }

  /** A root leaf loses the entry; with none left, the tree is gone. */
  lemma DeleteRootLeaf<V>(t: Node<V>, m: int, i: nat)
    requires DeleteArgs(t, m, [], i) && |t.children| == 0
    ensures Deleted(DeleteAt(t, m, [], i), t, m, Without(t, [], i))
  {
    var x := t.(entries := t.entries[..i] + t.entries[i + 1..]);
    assert Without(t, [], i) == x.entries;
    FitsNone(x, m, 1);
    assert Height(t) == 0;
  }

  /** A leaf below the root that keeps `minKeys` keys just loses the entry. */
  lemma DeleteLeafKept<V>(t: Node<V>, m: int, p: seq<int>, i: nat)
    requires DeleteArgs(t, m, p, i) && |At(t, p).children| == 0 && |p| > 0
    requires |At(t, p).entries| - 1 >= MinKeys(m)
    ensures Deleted(DeleteAt(t, m, p, i), t, m, Without(t, p, i))
  {
    var h := Height(t);
    var n := At(t, p);
    var x := n.(entries := n.entries[..i] + n.entries[i + 1..]);
    assert DeleteAt(t, m, p, i) == Some(Replace(t, p, x));
    UniformHeight(t, h);
    UniformAt(t, h, p);
    FitsAt(t, m, 1, None, p);
    FitsNone(n, m, MinKeys(m));
    assert Uniform(x, h - |p|);
    ReplaceFits(t, m, p, x);
    ElemsReplace(t, p, x);
    AppendAssoc(Pre(t, p), x.entries, Post(t, p));
    assert x.entries == n.entries[..i] + n.entries[i + 1..];
    Regroup2(Pre(t, p), n.entries[..i], n.entries[i + 1..], Post(t, p));
  }

  /** A leaf below the root left short is repaired by `handleUnderflow`. */
  lemma DeleteLeafShort<V>(t: Node<V>, m: int, p: seq<int>, i: nat)
    requires DeleteArgs(t, m, p, i) && |At(t, p).children| == 0 && |p| > 0
    requires |At(t, p).entries| - 1 < MinKeys(m)
    ensures Deleted(DeleteAt(t, m, p, i), t, m, Without(t, p, i))
  {
    var n := At(t, p);
    var x := n.(entries := n.entries[..i] + n.entries[i + 1..]);
    LeafUnderflow(t, m, p, i);
    var t2 := Replace(t, p, x);
    assert DeleteAt(t, m, p, i) == Some(HandleUnderflow(t2, m, p));
    HandleUnderflowSound(t2, m, p);
    var r := HandleUnderflow(t2, m, p);
    assert |t2.entries| == |t.entries|;
    KeptSame(r, t2, t);
    ElemsReplace(t, p, x);
    Regroup2(Pre(t, p), n.entries[..i], n.entries[i + 1..], Post(t, p));
  }

  /**
   * An inner node takes over its predecessor, the last entry of the rightmost leaf under
   * child `i`, and the leaf loses it: one delete at a leaf, on the tree with the entry overwritten.
   */
  lemma {:induction false} DeleteInnerSound<V>(t: Node<V>, m: int, p: seq<int>, i: nat)
    requires DeleteArgs(t, m, p, i) && |At(t, p).children| > 0
    ensures Deleted(DeleteAt(t, m, p, i), t, m, Without(t, p, i))
    decreases |At(t, p).children|, 0
  {
    var n := At(t, p);
    PredecessorFacts(t, m, p, i);
    var c := n.children[i];
    var r := [i] + PredecessorPath(c);
    var leaf := At(t, p + r);
    var last := |leaf.entries| - 1;
    var e := leaf.entries[last];
    Overwrite(t, m, p, i, e, r);
    var t1 := Replace(t, p, n.(entries := n.entries[i := e]));
    assert DeleteAt(t, m, p, i) == DeleteAt(t1, m, p + r, last);
    DeleteAtSound(t1, m, p + r, last);
    InnerWithout(t, m, p, i, n, c, PredecessorPath(c), leaf, e);
    assert |t1.entries| == |t.entries| && |t1.children| == |t.children| > 0;
    var d := DeleteAt(t1, m, p + r, last);
    if d.Some? {
      KeptSame(d.value, t1, t);
    }
  }

  /** The predecessor of entry `i` of the node `n` at `p`: entry `e`, last of the leaf at `p + ([i] + s)` under child `c`. */
  ghost predicate Predecessor<V>(t: Node<V>, m: int, p: seq<int>, i: nat, n: Node<V>, c: Node<V>, s: seq<int>, leaf: Node<V>, e: Entry<V>) {
    DeleteArgs(t, m, p, i) && n == At(t, p) && |n.children| > 0 && c == n.children[i] && s == PredecessorPath(c) &&
    ValidPath(t, p + ([i] + s)) && leaf == At(t, p + ([i] + s)) && |leaf.children| == 0 &&
    |leaf.entries| > 0 && e == leaf.entries[|leaf.entries| - 1]
  }

  /** Taking the predecessor's place and dropping it from its leaf removes entry `i` of the node at `p`. */
  lemma InnerWithout<V>(t: Node<V>, m: int, p: seq<int>, i: nat, n: Node<V>, c: Node<V>, s: seq<int>, leaf: Node<V>, e: Entry<V>)
    requires Predecessor(t, m, p, i, n, c, s, leaf, e)
    ensures var t1 := Replace(t, p, n.(entries := n.entries[i := e]));
      ValidPath(t1, p + ([i] + s)) && At(t1, p + ([i] + s)) == leaf &&
      Without(t1, p + ([i] + s), |leaf.entries| - 1) == Without(t, p, i)
  {
    var r := [i] + s;
    var last := |leaf.entries| - 1;
    var t1 := Replace(t, p, n.(entries := n.entries[i := e]));
    InnerPrePost(t, m, p, i, n, c, s, leaf, e);
    var pre, bef, pc, ls := Pre(t, p), Before(n, i), Pre(c, s), leaf.entries[..last];
    var sp, post := Span(n, i + 1), Post(t, p);
    WithoutLeafLast(t1, p + r, leaf);
    WithoutChild(t, p, i, n, c);
    SplitLast(leaf.entries);
    AppendAssoc(pc, ls, [e]);
    Regroup7(pre, bef, pc, ls, e, sp, post);
  }

  /** Without the last entry of a leaf: what lies before the leaf, the rest of the leaf, what lies after it. */
  lemma WithoutLeafLast<V>(t: Node<V>, q: seq<int>, leaf: Node<V>)
    requires ValidPath(t, q) && leaf == At(t, q) && |leaf.children| == 0 && |leaf.entries| > 0
    ensures Without(t, q, |leaf.entries| - 1) == (Pre(t, q) + leaf.entries[..|leaf.entries| - 1]) + ([] + Post(t, q))
  {
    assert leaf.entries[|leaf.entries|..] == [];
  }

  /** Without entry `i` of an inner node: all before it, with child `i`, then all after it. */
  lemma WithoutChild<V>(t: Node<V>, p: seq<int>, i: nat, n: Node<V>, c: Node<V>)
    requires ValidPath(t, p) && n == At(t, p) && i < |n.entries| && |n.children| == |n.entries| + 1 && c == n.children[i]
    ensures Without(t, p, i) == (Pre(t, p) + (Before(n, i) + Elems(c))) + (Span(n, i + 1) + Post(t, p))
  {
  }

  lemma SplitLast<T>(xs: seq<T>)
    requires |xs| > 0
    ensures xs == xs[..|xs| - 1] + [xs[|xs| - 1]]
  {
  }

  lemma Regroup7<T>(pre: seq<T>, bef: seq<T>, pc: seq<T>, ls: seq<T>, e: T, sp: seq<T>, post: seq<T>)
    ensures (pre + (bef + pc) + ls) + ([] + (([e] + sp) + post)) == (pre + (bef + ((pc + ls) + [e]))) + (sp + post)
  {
  }

  /** Around the predecessor's leaf, once the predecessor has taken the place of entry `i` of the node at `p`. */
  lemma InnerPrePost<V>(t: Node<V>, m: int, p: seq<int>, i: nat, n: Node<V>, c: Node<V>, s: seq<int>, leaf: Node<V>, e: Entry<V>)
    requires Predecessor(t, m, p, i, n, c, s, leaf, e)
    ensures var t1 := Replace(t, p, n.(entries := n.entries[i := e]));
      ValidPath(t1, p + ([i] + s)) && At(t1, p + ([i] + s)) == leaf &&
      Pre(t1, p + ([i] + s)) == Pre(t, p) + (Before(n, i) + Pre(c, s)) &&
      Post(t1, p + ([i] + s)) == ([e] + Span(n, i + 1)) + Post(t, p) &&
      Elems(c) == Pre(c, s) + leaf.entries
  {
    var r := [i] + s;
    PredecessorFacts(t, m, p, i);
    Overwrite(t, m, p, i, e, r);
    var n1 := n.(entries := n.entries[i := e]);
    var t1 := Replace(t, p, n1);
    AtReplace(t, p, n1);
    PrePostReplace(t, p, n1);
    OverwrittenPrePost(n, n1, i, s, e);
    PrePostConcat(t1, p, r);
  }

  /** Inside the node itself: child `i` and what lies around it, with entry `i` overwritten by `e`. */
  lemma OverwrittenPrePost<V>(n: Node<V>, n1: Node<V>, i: nat, s: seq<int>, e: Entry<V>)
    requires i < |n.entries| && |n.children| == |n.entries| + 1 && n1 == n.(entries := n.entries[i := e])
    requires ValidPath(n.children[i], s) && Post(n.children[i], s) == []
    ensures ValidPath(n1, [i] + s) && At(n1, [i] + s) == At(n.children[i], s)
    ensures Pre(n1, [i] + s) == Before(n, i) + Pre(n.children[i], s)
    ensures Post(n1, [i] + s) == [e] + Span(n, i + 1)
  {
    ConsPath(n1, i, s);
    BeforeSameUpTo(n, n1, i);
    SpanSameFrom(n, n1, i + 1);
    assert Sep(n1, i) == [e];
  }

  // ---------------------------------------------------------------------------
  // delete(withKey:)

  /** `findForDelete` goes where `findForUpdate` goes and reports the node and slot when the key is there. */
  lemma {:induction false} FindForDeleteAlong<V>(t: Node<V>, k: int)
    requires Shaped(t)
    ensures var (p, i) := FindForUpdate(Intended, t, k); var n := At(t, p);
      var hit := i < |n.entries| && n.entries[i].key == k;
      FindForDelete(t, k).0 == (if hit then Some(p) else None) && (hit ==> FindForDelete(t, k).1 == i)
    decreases t
  {
    var i := LowerBound(KeysOf(t.entries), k);
    if !(i < |t.entries| && t.entries[i].key == k) && |t.children| > 0 {
      FindForDeleteAlong(t.children[i], k);
      var (p', j) := FindForUpdate(Intended, t.children[i], k);
      assert ([i] + p')[1..] == p';
    }
  }

  /**
   * On a valid tree `findForDelete` finds a node exactly when the key is stored, and the
   * entry it points at splits the in-order entries around it.
   */
  lemma FindForDeleteSound<V>(t: Node<V>, m: int, k: int)
    requires ValidTree(t, m)
    ensures FindForDelete(t, k).0.Some? <==> Get(Elems(t), k).Some?
    ensures var (p, i) := FindForDelete(t, k); p.Some? ==>
      (var n := At(t, p.value);
        (|n.children| == 0 || |n.children| == |n.entries| + 1) &&
        Elems(t) == (Pre(t, p.value) + Left(n, i)) + [n.entries[i]] + (Right(n, i) + Post(t, p.value)))
  {
    FindForDeleteAlong(t, k);
    FindInAlong(t, k);
    FindSound(t, m, k);
    DescentSound(t, k);
  }

  /** A valid node with a key has entries in order. */
  lemma ElemsNonEmpty<V>(x: Node<V>)
    requires Shaped(x) && |x.entries| > 0
    ensures |Elems(x)| > 0
  {
    EntryAround(x, 0);
  }

  /**
   * `delete(withKey:)` keeps a B-tree of order `m`, drops the entry with key `k` and keeps
   * every other one; it changes nothing when `k` is absent, leaves no root exactly when
   * nothing is left, and lowers the tree by at most one level, and then only from a
   * root with a single key.
   */
  lemma DeleteSound<V>(root: Option<Node<V>>, m: int, k: int)
    requires ValidRoot(root, m)
    ensures var r := DeleteKey(root, m, k);
      ValidRoot(r, m) && EntriesOf(r) == Remove(EntriesOf(root), k) && (r.None? <==> EntriesOf(r) == [])
    ensures Get(EntriesOf(root), k).None? ==> DeleteKey(root, m, k) == root
    ensures root.Some? && DeleteKey(root, m, k).Some? ==>
      var h, h' := Height(root.value), Height(DeleteKey(root, m, k).value);
      h' == h || (h' == h - 1 && |root.value.entries| == 1)
  {
    if root.None? {
      assert Remove(EntriesOf(root), k) == [];
    } else {
      var t := root.value;
      UniformHeight(t, Height(t));
      ElemsNonEmpty(t);
      FindForDeleteSound(t, m, k);
      var (p, i) := FindForDelete(t, k);
      if p.None? {
        RemoveAbsent(Elems(t), k);
      } else {
        DeleteHit(t, m, k, p.value, i);
      }
    }
  }

  /** A stored key: the delete at the slot `findForDelete` points at. */
  lemma DeleteHit<V>(t: Node<V>, m: int, k: int, q: seq<int>, i: nat)
    requires m >= 3 && ValidTree(t, m) && FindForDelete(t, k) == (Some(q), i)
    ensures ValidPath(t, q) && i < |At(t, q).entries|
    ensures var r := DeleteAt(t, m, q, i);
      ValidRoot(r, m) && EntriesOf(r) == Remove(Elems(t), k) && (r.None? <==> EntriesOf(r) == []) &&
      (r.Some? ==> Height(r.value) == Height(t) || (Height(r.value) == Height(t) - 1 && |t.entries| == 1))
  {
    FindForDeleteSound(t, m, k);
    var n := At(t, q);
    var a, e, b := Pre(t, q) + Left(n, i), n.entries[i], Right(n, i) + Post(t, q);
    DeleteAtSound(t, m, q, i);
    var r := DeleteAt(t, m, q, i);
    assert EntriesOf(r) == a + b;
    SortedAround(a, e, b);
    RemoveOld(a, e, b);
    RemoveGet(Elems(t), k, k);
    if r.Some? {
      KeptValid(r.value, t, m);
    }
  }

  /** A tree within the bounds, in order and `Kept` is a valid one, with entries, of the height `Kept` allows. */
  lemma KeptValid<V>(x: Node<V>, t: Node<V>, m: int)
    requires Fits(x, m, 1, None) && Kept(x, t) && Sorted(Elems(x))
    ensures ValidTree(x, m) && |Elems(x)| > 0
    ensures Height(x) == Height(t) || (Height(x) == Height(t) - 1 && |t.entries| == 1)
  {
    if Uniform(x, Height(t)) {
      UniformHeight(x, Height(t));
    } else {
      UniformHeight(x, Height(t) - 1);
    }
    ElemsNonEmpty(x);
  }
}
