/**
 * Nodes of the B-tree of `BTree.swift`, as values.
 *
 * A node holds its entries, slot `i` of its parallel `keys` and `values` arrays,
 * which every operation edits in lockstep, and its children; a leaf has none. The
 * in-order sequence `Elems` of a subtree is what the B-tree stands for: insert is
 * proved against `Put` and delete against `Remove` on that sequence, and both are
 * related to the lookup `Get` below.
 *
 * A node inside a tree is named by its path of child indices from the root; the
 * path stands for the chain of `parent` references the Swift nodes keep.
 */
module BTreeNodes {
  import opened Wrappers
  import opened ArraySearch

  /** Slot `i` of a node's `keys` and `values` arrays. */
  datatype Entry<V> = Entry(key: int, value: V)

  /** `BTreeNode`: its entries and its children (none for a leaf). */
  datatype Node<V> = Node(entries: seq<Entry<V>>, children: seq<Node<V>>)

  /** The `keys` array of a run of entries. */
  function KeysOf<V>(es: seq<Entry<V>>): seq<int> {
    seq(|es|, i requires 0 <= i < |es| => es[i].key)
  }

  /** `minKeys`: `ceil(m / 2) - 1`, written with integers (`ceil(m / 2) == (m + 1) / 2` with floor division). */
  function MinKeys(m: int): int {
    (m + 1) / 2 - 1
  }

  // ---------------------------------------------------------------------------
  // In-order entries

  /** The separating entry after child `i`, when there is one. */
  ghost function Sep<V>(n: Node<V>, i: int): seq<Entry<V>> {
    if 0 <= i < |n.entries| then [n.entries[i]] else []
  }

  /** The entries of a subtree in order: a leaf's entries, or the children's with the node's own between them. */
  ghost function Elems<V>(n: Node<V>): seq<Entry<V>>
    decreases n, 1
  {
    if |n.children| == 0 then n.entries else Span(n, 0)
  }

  /** The in-order entries of children `i..` and of the separators after them. */
  ghost function Span<V>(n: Node<V>, i: nat): seq<Entry<V>>
    decreases n, 0, |n.children| - i
  {
    if i >= |n.children| then [] else Elems(n.children[i]) + Sep(n, i) + Span(n, i + 1)
  }

  /** The in-order entries of children `..i` and of the separators after them. */
  ghost function Before<V>(n: Node<V>, i: nat): seq<Entry<V>>
    requires i <= |n.children|
  {
    if i == 0 then [] else Before(n, i - 1) + Elems(n.children[i - 1]) + Sep(n, i - 1)
  }

  lemma AppendAssoc<T>(a: seq<T>, b: seq<T>, c: seq<T>)
    ensures a + (b + c) == (a + b) + c
  {
  }

  /** Five runs, the last three grouped. */
  lemma Regroup5<T>(a: seq<T>, b: seq<T>, c: seq<T>, d: seq<T>, e: seq<T>)
    ensures a + b + c + d + e == a + b + (c + d + e)
  {
  }

  /** The in-order entries up to child `i` and from child `i` on make up the whole. */
  lemma {:induction false} SpanSplit<V>(n: Node<V>, i: nat)
    requires i <= |n.children|
    ensures Span(n, 0) == Before(n, i) + Span(n, i)
  {
    if i > 0 {
      SpanSplit(n, i - 1);
      AppendAssoc(Before(n, i - 1), Elems(n.children[i - 1]) + Sep(n, i - 1), Span(n, i));
    }
  }

  /** The in-order entries of an inner node around its child `i`. */
  lemma ElemsAround<V>(n: Node<V>, i: nat)
    requires i < |n.children|
    ensures Elems(n) == Before(n, i) + Elems(n.children[i]) + Sep(n, i) + Span(n, i + 1)
  {
    SpanSplit(n, i);
  }

  /** `Before(n, i)` depends only on the first `i` children and separators. */
  lemma {:induction false} BeforeSame<V>(n: Node<V>, n': Node<V>, i: nat)
    requires i <= |n.children| && i <= |n'.children| && n.children[..i] == n'.children[..i]
    requires forall j :: 0 <= j < i ==> Sep(n, j) == Sep(n', j)
    ensures Before(n, i) == Before(n', i)
  {
    if i > 0 {
      assert n.children[..i - 1] == n'.children[..i - 1] by {
        assert n.children[..i - 1] == n.children[..i][..i - 1];
        assert n'.children[..i - 1] == n'.children[..i][..i - 1];
      }
      assert n.children[i - 1] == n.children[..i][i - 1];
      assert n'.children[i - 1] == n'.children[..i][i - 1];
      BeforeSame(n, n', i - 1);
    }
  }

  /**
   * `Span` is determined by the children and separators it covers: those of `n`
   * from `off + i` on are those of `b` from `i` on.
   */
  lemma {:induction false} SpanOffset<V>(n: Node<V>, b: Node<V>, off: nat, i: nat)
    requires off + |b.children| == |n.children| && i <= |b.children|
    requires forall j :: i <= j < |b.children| ==> n.children[off + j] == b.children[j]
    requires forall j :: i <= j < |b.children| ==> Sep(n, off + j) == Sep(b, j)
    ensures Span(n, off + i) == Span(b, i)
    decreases |b.children| - i
  {
    if i < |b.children| {
      SpanOffset(n, b, off, i + 1);
    }
  }

  /** `a`, then `e`, then `b`, as one node: a merge, or the two halves of a split and its median. */
  function Join<V>(a: Node<V>, e: Entry<V>, b: Node<V>): Node<V> {
    Node(a.entries + [e] + b.entries, a.children + b.children)
  }

  /** Both leaves, or both inner nodes with one more child than entries. */
  ghost predicate Matched<V>(a: Node<V>, b: Node<V>) {
    (|a.children| == 0 && |b.children| == 0) ||
    (|a.children| == |a.entries| + 1 && |b.children| == |b.entries| + 1)
  }

  lemma {:induction false} JoinSpan<V>(a: Node<V>, e: Entry<V>, b: Node<V>, i: nat)
    requires |a.children| == |a.entries| + 1 && |b.children| == |b.entries| + 1 && i < |a.children|
    ensures Span(Join(a, e, b), i) == Span(a, i) + [e] + Span(b, 0)
    decreases |a.children| - i
  {
    var n := Join(a, e, b);
    assert n.children[i] == a.children[i];
    if i + 1 == |a.children| {
      SpanOffset(n, b, |a.children|, 0);
      assert Sep(n, i) == [e];
    } else {
      JoinSpan(a, e, b, i + 1);
      assert Sep(n, i) == Sep(a, i);
    }
  }

  /** The in-order entries of a join are those of its parts around `e`. */
  lemma JoinElems<V>(a: Node<V>, e: Entry<V>, b: Node<V>)
    requires Matched(a, b)
    ensures Elems(Join(a, e, b)) == Elems(a) + [e] + Elems(b)
  {
    if |a.children| > 0 {
      JoinSpan(a, e, b, 0);
    }
  }

  // ---------------------------------------------------------------------------
  // Paths

  ghost predicate ValidPath<V>(n: Node<V>, p: seq<int>)
    decreases |p|
  {
    |p| == 0 || (0 <= p[0] < |n.children| && ValidPath(n.children[p[0]], p[1..]))
  }

  /** The node at path `p`. */
  function At<V>(n: Node<V>, p: seq<int>): Node<V>
    requires ValidPath(n, p)
    decreases |p|
  {
    if |p| == 0 then n else At(n.children[p[0]], p[1..])
  }

  /** `n` with the node at path `p` replaced by `x`. */
  function Replace<V>(n: Node<V>, p: seq<int>, x: Node<V>): Node<V>
    requires ValidPath(n, p)
    decreases |p|
  {
    if |p| == 0 then x else n.(children := n.children[p[0] := Replace(n.children[p[0]], p[1..], x)])
  }

  /** One more step down. */
  lemma {:induction false} PathSnoc<V>(n: Node<V>, p: seq<int>, j: int)
    requires ValidPath(n, p)
    ensures ValidPath(n, p + [j]) <==> 0 <= j < |At(n, p).children|
    ensures ValidPath(n, p + [j]) ==> At(n, p + [j]) == At(n, p).children[j]
    decreases |p|
  {
    if |p| > 0 {
      assert (p + [j])[1..] == p[1..] + [j];
      PathSnoc(n.children[p[0]], p[1..], j);
    }
  }

  /** A path and its extension. */
  lemma {:induction false} PathConcat<V>(n: Node<V>, p: seq<int>, s: seq<int>)
    requires ValidPath(n, p)
    ensures ValidPath(n, p + s) <==> ValidPath(At(n, p), s)
    ensures ValidPath(n, p + s) ==> At(n, p + s) == At(At(n, p), s)
    decreases |p|
  {
    if |p| > 0 {
      assert (p + s)[1..] == p[1..] + s;
      PathConcat(n.children[p[0]], p[1..], s);
    } else {
      assert p + s == s;
    }
  }

  /** The parent's path of a non-empty path. */
  lemma {:induction false} PathParent<V>(n: Node<V>, p: seq<int>)
    requires ValidPath(n, p) && |p| > 0
    ensures ValidPath(n, p[..|p| - 1]) && 0 <= p[|p| - 1] < |At(n, p[..|p| - 1]).children|
    ensures At(n, p) == At(n, p[..|p| - 1]).children[p[|p| - 1]]
    decreases |p|
  {
    if |p| > 1 {
      PathParent(n.children[p[0]], p[1..]);
      assert p[..|p| - 1][1..] == p[1..][..|p| - 2];
    }
  }

  /** After replacing the node at `p`, the path still leads there and finds `x`. */
  lemma {:induction false} AtReplace<V>(n: Node<V>, p: seq<int>, x: Node<V>)
    requires ValidPath(n, p)
    ensures ValidPath(Replace(n, p, x), p) && At(Replace(n, p, x), p) == x
    decreases |p|
  {
    if |p| > 0 {
      AtReplace(n.children[p[0]], p[1..], x);
    }
  }

  /** Replacing a node by itself changes nothing. */
  lemma {:induction false} ReplaceSame<V>(n: Node<V>, p: seq<int>)
    requires ValidPath(n, p)
    ensures Replace(n, p, At(n, p)) == n
    decreases |p|
  {
    if |p| > 0 {
      ReplaceSame(n.children[p[0]], p[1..]);
    }
  }

  /** Replacing below `p` is replacing at `p` by the replaced subtree. */
  lemma {:induction false} ReplaceBelow<V>(n: Node<V>, p: seq<int>, s: seq<int>, x: Node<V>)
    requires ValidPath(n, p) && ValidPath(At(n, p), s)
    ensures ValidPath(n, p + s) && Replace(n, p + s, x) == Replace(n, p, Replace(At(n, p), s, x))
    decreases |p|
  {
    PathConcat(n, p, s);
    if |p| > 0 {
      assert (p + s)[1..] == p[1..] + s;
      ReplaceBelow(n.children[p[0]], p[1..], s, x);
    } else {
      assert p + s == s;
    }
  }

  /** Replacing child `j` of the node at `p`. */
  lemma ReplaceSnoc<V>(n: Node<V>, p: seq<int>, j: int, x: Node<V>)
    requires ValidPath(n, p) && 0 <= j < |At(n, p).children|
    ensures ValidPath(n, p + [j])
    ensures Replace(n, p + [j], x) == Replace(n, p, At(n, p).(children := At(n, p).children[j := x]))
  {
    PathSnoc(n, p, j);
    ReplaceBelow(n, p, [j], x);
  }

  /** Replacing twice at the same path keeps the second. */
  lemma {:induction false} ReplaceTwice<V>(n: Node<V>, p: seq<int>, x: Node<V>, y: Node<V>)
    requires ValidPath(n, p)
    ensures ValidPath(Replace(n, p, x), p) && Replace(Replace(n, p, x), p, y) == Replace(n, p, y)
    decreases |p|
  {
    AtReplace(n, p, x);
    if |p| > 0 {
      ReplaceTwice(n.children[p[0]], p[1..], x, y);
    }
  }

  /** The in-order entries before the subtree at `p`. */
  ghost function Pre<V>(n: Node<V>, p: seq<int>): seq<Entry<V>>
    requires ValidPath(n, p)
    decreases |p|
  {
    if |p| == 0 then [] else Before(n, p[0]) + Pre(n.children[p[0]], p[1..])
  }

  /** The in-order entries after the subtree at `p`. */
  ghost function Post<V>(n: Node<V>, p: seq<int>): seq<Entry<V>>
    requires ValidPath(n, p)
    decreases |p|
  {
    if |p| == 0 then [] else Post(n.children[p[0]], p[1..]) + Sep(n, p[0]) + Span(n, p[0] + 1)
  }

  /** Replacing child `j` replaces its run of in-order entries. */
  lemma ElemsChild<V>(n: Node<V>, j: nat, c: Node<V>)
    requires j < |n.children|
    ensures Elems(n.(children := n.children[j := c])) == Before(n, j) + Elems(c) + Sep(n, j) + Span(n, j + 1)
  {
    var n' := n.(children := n.children[j := c]);
    assert n'.entries == n.entries;
    assert Elems(n') == Before(n', j) + Elems(c) + Sep(n', j) + Span(n', j + 1) by {
      ElemsAround(n', j);
    }
    assert Before(n', j) == Before(n, j) by {
      assert n.children[..j] == n'.children[..j];
      BeforeSame(n, n', j);
    }
    SpanSame(n, n', j + 1);
  }

  /** `Span(n, i)` depends only on the children from `i` on and on the entries. */
  lemma {:induction false} SpanSame<V>(n: Node<V>, n': Node<V>, i: nat)
    requires |n.children| == |n'.children| && n.entries == n'.entries
    requires forall k :: i <= k < |n.children| ==> n.children[k] == n'.children[k]
    ensures Span(n, i) == Span(n', i)
    decreases |n.children| - i
  {
    if i < |n.children| {
      SpanSame(n, n', i + 1);
    }
  }

  /** Replacing the subtree at `p` replaces its run of in-order entries and nothing else. */
  lemma {:induction false} ElemsReplace<V>(n: Node<V>, p: seq<int>, x: Node<V>)
    requires ValidPath(n, p)
    ensures Elems(Replace(n, p, x)) == Pre(n, p) + Elems(x) + Post(n, p)
    decreases |p|
  {
    if |p| > 0 {
      var j := p[0];
      var c := Replace(n.children[j], p[1..], x);
      ElemsReplace(n.children[j], p[1..], x);
      ElemsChild(n, j, c);
    }
  }

  /** The in-order entries around the subtree at `p`. */
  lemma ElemsAt<V>(n: Node<V>, p: seq<int>)
    requires ValidPath(n, p)
    ensures Elems(n) == Pre(n, p) + Elems(At(n, p)) + Post(n, p)
  {
    ElemsReplace(n, p, At(n, p));
    ReplaceSame(n, p);
  }

  /** Replacing the subtree at `p` leaves what lies before and after `p` alone. */
  lemma {:induction false} PrePostReplace<V>(n: Node<V>, p: seq<int>, y: Node<V>)
    requires ValidPath(n, p)
    ensures ValidPath(Replace(n, p, y), p)
    ensures Pre(Replace(n, p, y), p) == Pre(n, p) && Post(Replace(n, p, y), p) == Post(n, p)
    decreases |p|
  {
    AtReplace(n, p, y);
    if |p| > 0 {
      var j := p[0];
      var n' := Replace(n, p, y);
      PrePostReplace(n.children[j], p[1..], y);
      assert Before(n', j) == Before(n, j) by {
        BeforeSame(n, n', j);
      }
      SpanSame(n, n', j + 1);
    }
  }

  /** What lies before and after the node at `p + s`: that around `s` inside the node at `p`, within that around `p`. */
  lemma {:induction false} PrePostConcat<V>(n: Node<V>, p: seq<int>, s: seq<int>)
    requires ValidPath(n, p) && ValidPath(At(n, p), s)
    ensures ValidPath(n, p + s)
    ensures Pre(n, p + s) == Pre(n, p) + Pre(At(n, p), s)
    ensures Post(n, p + s) == Post(At(n, p), s) + Post(n, p)
    decreases |p|
  {
    PathConcat(n, p, s);
    if |p| > 0 {
      var j, c := p[0], n.children[p[0]];
      assert (p + s)[0] == j && (p + s)[1..] == p[1..] + s;
      PrePostConcat(c, p[1..], s);
      AppendAssoc(Before(n, j), Pre(c, p[1..]), Pre(At(n, p), s));
      var a, b, x := Post(At(n, p), s), Post(c, p[1..]), Sep(n, j) + Span(n, j + 1);
      assert Post(n, p + s) == (a + b) + x && Post(n, p) == b + x by {
        AppendAssoc(a + b, Sep(n, j), Span(n, j + 1));
        AppendAssoc(b, Sep(n, j), Span(n, j + 1));
      }
      AppendAssoc(a, b, x);
    } else {
      assert p + s == s;
    }
  }

  /** A change below `p` leaves what lies before and after `p` alone. */
  lemma PrePostBelow<V>(n: Node<V>, p: seq<int>, s: seq<int>, x: Node<V>)
    requires ValidPath(n, p) && ValidPath(At(n, p), s)
    ensures ValidPath(n, p + s) && ValidPath(Replace(n, p + s, x), p)
    ensures At(Replace(n, p + s, x), p) == Replace(At(n, p), s, x)
    ensures Pre(Replace(n, p + s, x), p) == Pre(n, p) && Post(Replace(n, p + s, x), p) == Post(n, p)
  {
    ReplaceBelow(n, p, s, x);
    AtReplace(n, p, Replace(At(n, p), s, x));
    PrePostReplace(n, p, Replace(At(n, p), s, x));
  }

  // ---------------------------------------------------------------------------
  // Shape invariants

  /** Every inner node has one more child than keys, which `findForUpdate`'s descent relies on. */
  ghost predicate Shaped<V>(n: Node<V>)
    decreases n
  {
    |n.children| == 0 ||
    (|n.children| == |n.entries| + 1 && forall j :: 0 <= j < |n.children| ==> Shaped(n.children[j]))
  }

  /** Every leaf lies at depth `h`, and every inner node has one more child than keys. */
  ghost predicate Uniform<V>(n: Node<V>, h: nat)
    decreases n
  {
    if h == 0 then |n.children| == 0
    else |n.children| == |n.entries| + 1 && forall j :: 0 <= j < |n.children| ==> Uniform(n.children[j], h - 1)
  }

  /** The length of the leftmost path. */
  ghost function Height<V>(n: Node<V>): nat
    decreases n
  {
    if |n.children| == 0 then 0 else 1 + Height(n.children[0])
  }

  lemma {:induction false} UniformHeight<V>(n: Node<V>, h: nat)
    requires Uniform(n, h)
    ensures Height(n) == h && Shaped(n)
    decreases n
  {
    if h > 0 {
      forall j | 0 <= j < |n.children|
        ensures Shaped(n.children[j])
      {
        UniformHeight(n.children[j], h - 1);
      }
      UniformHeight(n.children[0], h - 1);
    }
  }

  /** The subtree at `p` is uniform of `|p|` less. */
  lemma {:induction false} UniformAt<V>(n: Node<V>, h: nat, p: seq<int>)
    requires Uniform(n, h) && ValidPath(n, p)
    ensures |p| <= h && Uniform(At(n, p), h - |p|)
    decreases |p|
  {
    if |p| > 0 {
      UniformAt(n.children[p[0]], h - 1, p[1..]);
    }
  }

  /** A subtree of the same height keeps the tree uniform. */
  lemma {:induction false} UniformReplace<V>(n: Node<V>, h: nat, p: seq<int>, x: Node<V>)
    requires Uniform(n, h) && ValidPath(n, p) && |p| <= h && Uniform(x, h - |p|)
    ensures Uniform(Replace(n, p, x), h)
    decreases |p|
  {
    if |p| > 0 {
      UniformReplace(n.children[p[0]], h - 1, p[1..], x);
    }
  }

  // ---------------------------------------------------------------------------
  // Key counts

  /** What is left of a hole path one step down through child `j`. */
  function Down(hole: Option<seq<int>>, j: int): Option<seq<int>> {
    if hole.Some? && |hole.value| > 0 && hole.value[0] == j then Some(hole.value[1..]) else None
  }

  /**
   * Every node holds at most `m - 1` keys; the top node at least `lo`, every other
   * node at least `minKeys`, except the node at path `hole`, which may hold one fewer.
   */
  ghost predicate Fits<V>(n: Node<V>, m: int, lo: int, hole: Option<seq<int>>)
    decreases n
  {
    (if hole == Some([]) then lo - 1 else lo) <= |n.entries| <= m - 1 &&
    forall j :: 0 <= j < |n.children| ==> Fits(n.children[j], m, MinKeys(m), Down(hole, j))
  }

  /** The lower bound a node at depth `|p|` is held to. */
  function LoAt(m: int, lo: int, p: seq<int>): int {
    if |p| == 0 then lo else MinKeys(m)
  }

  /** A hole path seen from the node at `p`: the rest of it when it runs through `p`. */
  function DownPath(hole: Option<seq<int>>, p: seq<int>): Option<seq<int>> {
    if hole.Some? && |p| <= |hole.value| && hole.value[..|p|] == p then Some(hole.value[|p|..]) else None
  }

  /** The subtree at `p` keeps its part of the bounds. */
  lemma {:induction false} FitsAt<V>(n: Node<V>, m: int, lo: int, hole: Option<seq<int>>, p: seq<int>)
    requires Fits(n, m, lo, hole) && ValidPath(n, p)
    ensures Fits(At(n, p), m, LoAt(m, lo, p), DownPath(hole, p))
    decreases |p|
  {
    if |p| > 0 {
      var j := p[0];
      FitsAt(n.children[j], m, MinKeys(m), Down(hole, j), p[1..]);
      assert DownPath(hole, p) == DownPath(Down(hole, j), p[1..]) by {
        assert p == [j] + p[1..];
        if Down(hole, j).Some? {
          var h := hole.value;
          if |p| <= |h| {
            assert h[..|p|] == [j] + h[1..][..|p| - 1];
            assert h[|p|..] == h[1..][|p| - 1..];
          }
        } else if hole.Some? && |p| <= |hole.value| {
          assert hole.value[..|p|][0] != p[0];
        }
      }
    }
  }

  /** A hole that lies under `p` (or none), at or below which `x` may be. */
  ghost predicate HoleUnder(hole: Option<seq<int>>, p: seq<int>) {
    hole.None? || (|p| <= |hole.value| && hole.value[..|p|] == p)
  }

  /** A hole of `x` seen from the top. */
  function Lift(p: seq<int>, hole: Option<seq<int>>): Option<seq<int>> {
    if hole.Some? then Some(p + hole.value) else None
  }

  /** Putting a subtree with its own bounds at `p` gives a tree whose only hole is the subtree's. */
  lemma {:induction false} FitsReplace<V>(n: Node<V>, m: int, lo: int, hole: Option<seq<int>>, p: seq<int>, x: Node<V>, xhole: Option<seq<int>>)
    requires Fits(n, m, lo, hole) && ValidPath(n, p) && HoleUnder(hole, p)
    requires Fits(x, m, LoAt(m, lo, p), xhole)
    ensures Fits(Replace(n, p, x), m, lo, Lift(p, xhole))
    decreases |p|
  {
    if |p| > 0 {
      var j := p[0];
      var n' := Replace(n, p, x);
      var h' := Lift(p, xhole);
      var down := Down(hole, j);
      assert HoleUnder(down, p[1..]) by {
        if hole.Some? {
          assert hole.value[..|p|] == p;
          assert hole.value[0] == j;
          assert hole.value[1..][..|p| - 1] == p[1..];
        }
      }
      FitsReplace(n.children[j], m, MinKeys(m), down, p[1..], x, xhole);
      assert Down(h', j) == Lift(p[1..], xhole) by {
        if xhole.Some? {
          assert (p + xhole.value)[1..] == p[1..] + xhole.value;
        }
      }
      forall k | 0 <= k < |n'.children| && k != j
        ensures Fits(n'.children[k], m, MinKeys(m), Down(h', k))
      {
        assert Down(hole, k) == None;
        assert Down(h', k) == None;
      }
      assert h' != Some([]);
      assert hole != Some([]);
    } else {
      if xhole.Some? {
        assert p + xhole.value == xhole.value;
      }
    }
  }

  /** The bounds hold for a lower floor. */
  lemma FitsWeaken<V>(n: Node<V>, m: int, lo: int, lo': int)
    requires Fits(n, m, lo, None) && lo' <= lo
    ensures Fits(n, m, lo', None)
  {
  }

  /** A fitting B-tree of order `m`: uniform depth, key counts within bounds, keys in order. */
  ghost predicate ValidTree<V>(n: Node<V>, m: int) {
    Shaped(n) && Uniform(n, Height(n)) && Fits(n, m, 1, None) && Sorted(Elems(n))
  }

  // ---------------------------------------------------------------------------
  // Sorted entry sequences, the map a B-tree stands for

  ghost predicate Sorted<V>(es: seq<Entry<V>>) {
    StrictlySorted(KeysOf(es))
  }

  /** Every key is below `k`. */
  ghost predicate Below<V>(es: seq<Entry<V>>, k: int) {
    forall i :: 0 <= i < |es| ==> es[i].key < k
  }

  /** Every key is above `k`. */
  ghost predicate Above<V>(es: seq<Entry<V>>, k: int) {
    forall i :: 0 <= i < |es| ==> es[i].key > k
  }

  /** The value stored under `k`: the first entry with that key. */
  function Get<V>(es: seq<Entry<V>>, k: int): Option<V> {
    if |es| == 0 then None else if es[0].key == k then Some(es[0].value) else Get(es[1..], k)
  }

  /** Storing `v` under `k`: overwrite the entry with key `k`, or add one where `k` belongs. */
  ghost function Put<V>(es: seq<Entry<V>>, k: int, v: V): seq<Entry<V>> {
    var j := LowerBound(KeysOf(es), k);
    if j < |es| && es[j].key == k then es[j := Entry(k, v)] else es[..j] + [Entry(k, v)] + es[j..]
  }

  /** Dropping the entry with key `k`, if there is one. */
  ghost function Remove<V>(es: seq<Entry<V>>, k: int): seq<Entry<V>> {
    var j := LowerBound(KeysOf(es), k);
    if j < |es| && es[j].key == k then es[..j] + es[j + 1..] else es
  }

  /** Every key of `a` is below every key of `b`. */
  ghost predicate Lt<V>(a: seq<Entry<V>>, b: seq<Entry<V>>) {
    forall i, j :: 0 <= i < |a| && 0 <= j < |b| ==> a[i].key < b[j].key
  }

  lemma KeysOfAppend<V>(a: seq<Entry<V>>, b: seq<Entry<V>>)
    ensures KeysOf(a + b) == KeysOf(a) + KeysOf(b)
  {
  }

  /** A concatenation is sorted when its parts are and the first lies below the second. */
  lemma SortedAppend<V>(a: seq<Entry<V>>, b: seq<Entry<V>>)
    ensures Sorted(a + b) <==> Sorted(a) && Sorted(b) && Lt(a, b)
  {
    var k := KeysOf(a + b);
    assert forall i :: 0 <= i < |a| ==> k[i] == a[i].key;
    assert forall j :: 0 <= j < |b| ==> k[|a| + j] == b[j].key;
    if Sorted(a + b) {
      forall i, j | 0 <= i < j < |b|
        ensures KeysOf(b)[i] < KeysOf(b)[j]
      {
        assert k[|a| + i] < k[|a| + j];
      }
      forall i, j | 0 <= i < |a| && 0 <= j < |b|
        ensures a[i].key < b[j].key
      {
        assert k[i] < k[|a| + j];
      }
    }
    if Sorted(a) && Sorted(b) && Lt(a, b) {
      forall i, j | 0 <= i < j < |a + b|
        ensures k[i] < k[j]
      {
        if j < |a| {
          assert KeysOf(a)[i] < KeysOf(a)[j];
        } else if i < |a| {
          assert a[i].key < b[j - |a|].key;
        } else {
          assert KeysOf(b)[i - |a|] < KeysOf(b)[j - |a|];
        }
      }
    }
  }

  /** Around an entry in a sorted run: sorted parts, below and above its key. */
  lemma SortedAround<V>(a: seq<Entry<V>>, e: Entry<V>, b: seq<Entry<V>>)
    requires Sorted(a + [e] + b)
    ensures Sorted(a) && Sorted(b) && Below(a, e.key) && Above(b, e.key)
  {
    SortedAppend(a + [e], b);
    SortedAppend(a, [e]);
    forall i | 0 <= i < |a|
      ensures a[i].key < e.key
    {
      assert [e][0] == e;
    }
    forall i | 0 <= i < |b|
      ensures b[i].key > e.key
    {
      assert (a + [e])[|a|] == e;
    }
  }

  /** Sorted parts below and above an entry make a sorted run. */
  lemma SortedJoin<V>(a: seq<Entry<V>>, e: Entry<V>, b: seq<Entry<V>>)
    requires Sorted(a) && Sorted(b) && Below(a, e.key) && Above(b, e.key)
    ensures Sorted(a + [e] + b)
  {
    SortedAppend(a, [e]);
    SortedAppend(a + [e], b);
    assert forall i :: 0 <= i < |a + [e]| ==> (a + [e])[i].key <= e.key;
  }

  /** The first part is searched first. */
  lemma {:induction false} GetAppend<V>(a: seq<Entry<V>>, b: seq<Entry<V>>, k: int)
    ensures Get(a + b, k) == if Get(a, k).Some? then Get(a, k) else Get(b, k)
  {
    if |a| > 0 {
      assert (a + b)[1..] == a[1..] + b;
      GetAppend(a[1..], b, k);
    } else {
      assert a + b == b;
    }
  }

  /** Nothing is found exactly when no entry has the key. */
  lemma {:induction false} GetNone<V>(a: seq<Entry<V>>, k: int)
    ensures Get(a, k).None? <==> forall i :: 0 <= i < |a| ==> a[i].key != k
  {
    if |a| > 0 {
      GetNone(a[1..], k);
      assert forall i :: 1 <= i < |a| ==> a[i] == a[1..][i - 1];
    }
  }

  /** In a sorted run, the entry with the key is the one found. */
  lemma GetHit<V>(a: seq<Entry<V>>, e: Entry<V>, b: seq<Entry<V>>)
    requires Below(a, e.key)
    ensures Get(a + [e] + b, e.key) == Some(e.value)
  {
    AppendAssoc(a, [e], b);
    GetAppend(a, [e] + b, e.key);
    GetNone(a, e.key);
  }

  /** A key strictly between two runs is in neither. */
  lemma GetMiss<V>(a: seq<Entry<V>>, b: seq<Entry<V>>, k: int)
    requires Below(a, k) && Above(b, k)
    ensures Get(a + b, k) == None
  {
    GetAppend(a, b, k);
    GetNone(a, k);
    GetNone(b, k);
  }

  /** Where `k` belongs between two runs. */
  lemma LowerBoundBetween<V>(a: seq<Entry<V>>, b: seq<Entry<V>>, k: int)
    requires Below(a, k) && (|b| > 0 ==> b[0].key >= k)
    ensures LowerBound(KeysOf(a + b), k) == |a|
  {
    LowerBoundUnique(KeysOf(a + b), k, |a|);
  }

  /** `Put` of an absent key adds its entry where it belongs. */
  lemma PutNew<V>(a: seq<Entry<V>>, b: seq<Entry<V>>, k: int, v: V)
    requires Below(a, k) && Above(b, k)
    ensures Put(a + b, k, v) == a + [Entry(k, v)] + b
  {
    LowerBoundBetween(a, b, k);
    assert (a + b)[..|a|] == a && (a + b)[|a|..] == b;
  }

  /** `Put` of a present key overwrites its value. */
  lemma PutOld<V>(a: seq<Entry<V>>, e: Entry<V>, b: seq<Entry<V>>, v: V)
    requires Below(a, e.key)
    ensures Put(a + [e] + b, e.key, v) == a + [Entry(e.key, v)] + b
  {
    AppendAssoc(a, [e], b);
    LowerBoundBetween(a, [e] + b, e.key);
  }

  /** `Remove` of a present key drops its entry. */
  lemma RemoveOld<V>(a: seq<Entry<V>>, e: Entry<V>, b: seq<Entry<V>>)
    requires Below(a, e.key)
    ensures Remove(a + [e] + b, e.key) == a + b
  {
    AppendAssoc(a, [e], b);
    LowerBoundBetween(a, [e] + b, e.key);
    var es := a + [e] + b;
    assert es[..|a|] == a && es[|a| + 1..] == b;
  }

  /** `Remove` of an absent key changes nothing. */
  lemma RemoveAbsent<V>(es: seq<Entry<V>>, k: int)
    requires Get(es, k) == None
    ensures Remove(es, k) == es
  {
    GetNone(es, k);
  }

  /** An entry with another key does not affect a lookup. */
  lemma GetSkip<V>(a: seq<Entry<V>>, x: Entry<V>, b: seq<Entry<V>>, k: int)
    requires x.key != k
    ensures Get(a + [x] + b, k) == Get(a + b, k)
  {
    AppendAssoc(a, [x], b);
    GetAppend(a, [x] + b, k);
    GetAppend(a, b, k);
  }

  /** A sorted run around the place of `k`: below it, then possibly `k`, then above it. */
  lemma LowerBoundSplit<V>(es: seq<Entry<V>>, k: int)
    requires Sorted(es)
    ensures var j := LowerBound(KeysOf(es), k);
      Below(es[..j], k) &&
      (j < |es| && es[j].key == k ==> Above(es[j + 1..], k)) &&
      (!(j < |es| && es[j].key == k) ==> Above(es[j..], k))
  {
    var ks := KeysOf(es);
    var j := LowerBound(ks, k);
    LowerBoundSorted(ks, k);
    forall i | 0 <= i < j
      ensures es[..j][i].key < k
    {
      assert ks[i] < k;
    }
    if j < |es| {
      forall i | j < i < |es|
        ensures es[i].key > es[j].key
      {
        assert ks[j] < ks[i];
      }
    }
  }

  /** `Put` keeps the run sorted, stores `v` under `k` and leaves every other key alone. */
  lemma PutGet<V>(es: seq<Entry<V>>, k: int, v: V, k': int)
    requires Sorted(es)
    ensures Sorted(Put(es, k, v))
    ensures Get(Put(es, k, v), k') == if k' == k then Some(v) else Get(es, k')
  {
    var j := LowerBound(KeysOf(es), k);
    LowerBoundSplit(es, k);
    var n := Entry(k, v);
    if j < |es| && es[j].key == k {
      var a, e, c := es[..j], es[j], es[j + 1..];
      assert es == a + [e] + c;
      assert Put(es, k, v) == a + [n] + c;
      SortedAround(a, e, c);
      SortedJoin(a, n, c);
      if k' == k {
        GetHit(a, n, c);
      } else {
        GetSkip(a, n, c, k');
        GetSkip(a, e, c, k');
      }
    } else {
      var a, b := es[..j], es[j..];
      assert es == a + b;
      assert Put(es, k, v) == a + [n] + b;
      SortedAppend(a, b);
      SortedJoin(a, n, b);
      if k' == k {
        GetHit(a, n, b);
      } else {
        GetSkip(a, n, b, k');
      }
    }
  }

  /** `Remove` keeps the run sorted, drops `k` and leaves every other key alone. */
  lemma RemoveGet<V>(es: seq<Entry<V>>, k: int, k': int)
    requires Sorted(es)
    ensures Sorted(Remove(es, k))
    ensures Get(Remove(es, k), k') == if k' == k then None else Get(es, k')
  {
    var j := LowerBound(KeysOf(es), k);
    LowerBoundSplit(es, k);
    if j < |es| && es[j].key == k {
      var a, e, c := es[..j], es[j], es[j + 1..];
      assert es == a + [e] + c;
      assert Remove(es, k) == a + c;
      SortedAround(a, e, c);
      SortedAppend(a, c);
      if k' == k {
        GetMiss(a, c, k);
      } else {
        GetSkip(a, e, c, k');
      }
    } else {
      var a, b := es[..j], es[j..];
      assert es == a + b;
      GetMiss(a, b, k);
    }
  }
}
