/**
 * `BTree` of `BTree.swift`: lookups and insert with node splits, on the node values
 * of `BTreeNodes`. Delete is in `BTreeDelete` and the class holding the root in
 * `BTreeObjects`.
 *
 * The Swift methods edit the `keys`, `values` and `children` arrays of nodes in
 * place and walk up through `parent` references. Here a node is named by its path
 * from the root, each method becomes a function from the tree before to the tree
 * after, and walking up to the parent is dropping the last step of the path.
 *
 * Every search for a key in a node's key array goes through `Point`, which is either
 * `insertionPoint` as written or the lower bound it is meant to compute. The lemmas
 * about valid trees are stated for the latter; the last section shows, on a small
 * tree, the lookup that traps and the insert that duplicates a key with the former.
 */
module BTrees {
  import opened Wrappers
  import opened ArraySearch
  import opened BTreeNodes

  /** `BTreeNodeSlice`: a found key with its value. */
  datatype Slice<V> = Slice(key: int, value: V)

  /** Which search of a node's key array is used. */
  datatype Search = AsWritten | Intended

  /** Whether `k` is among `keys`, and the index where it is or belongs. */
  function Point(s: Search, keys: seq<int>, k: int): (r: (bool, nat))
    ensures r.1 <= |keys| && (r.0 ==> r.1 < |keys| && keys[r.1] == k)
  {
    if s == AsWritten then
      var (found, i) := AsWrittenInsertionPoint(keys, k);
      (found, i)
    else
      var i := LowerBound(keys, k);
      (i < |keys| && keys[i] == k, i)
  }

  // ---------------------------------------------------------------------------
  // Lookups

  /** `find(node:key:)`, with a miss at a leaf reported as `nil`. */
  function FindIn<V>(n: Node<V>, k: int): Option<Slice<V>>
    requires Shaped(n)
    decreases n
  {
    var (hasKey, i) := Point(Intended, KeysOf(n.entries), k);
    if hasKey then Some(Slice(k, n.entries[i].value))
    else if |n.children| == 0 then None
    else FindIn(n.children[i], k)
  }

  /** The outcome of a Swift call that may stop the program. */
  datatype Outcome<T> = Returns(value: T) | Traps

  /** `find(node:key:)` as written: on a miss at a leaf it reads child slot `insertionIndex` of an empty array. */
  function AsWrittenFindIn<V>(n: Node<V>, k: int): Outcome<Option<Slice<V>>>
    requires Shaped(n)
    decreases n
  {
    var (hasKey, i) := Point(AsWritten, KeysOf(n.entries), k);
    if hasKey then Returns(Some(Slice(k, n.entries[i].value)))
    else if i >= |n.children| then Traps
    else AsWrittenFindIn(n.children[i], k)
  }

  /** `findForUpdate(node:key:)`: the node holding `k`, or the leaf where it belongs, and the slot. */
  function FindForUpdate<V>(s: Search, n: Node<V>, k: int): (r: (seq<int>, nat))
    requires Shaped(n)
    ensures ValidPath(n, r.0) && r.1 <= |At(n, r.0).entries|
    decreases n
  {
    var (hasKey, i) := Point(s, KeysOf(n.entries), k);
    if hasKey || |n.children| == 0 then ([], i)
    else
      var (p, j) := FindForUpdate(s, n.children[i], k);
      assert ([i] + p)[1..] == p;
      ([i] + p, j)
  }

  /** `findForDelete(node:key:)`: the node holding `k` and the slot, or none. */
  function FindForDelete<V>(n: Node<V>, k: int): (r: (Option<seq<int>>, nat))
    requires Shaped(n)
    ensures r.0.Some? ==> ValidPath(n, r.0.value) && r.1 < |At(n, r.0.value).entries|
    ensures r.0.Some? ==> At(n, r.0.value).entries[r.1].key == k
    decreases n
  {
    var (hasKey, i) := Point(Intended, KeysOf(n.entries), k);
    if hasKey then (Some([]), i)
    else if |n.children| == 0 then (None, i)
    else
      var (p, j) := FindForDelete(n.children[i], k);
      if p.Some? then
        assert ([i] + p.value)[1..] == p.value;
        (Some([i] + p.value), j)
      else (None, j)
  }

  /** `findInOrderPredecessorNode`: down the last children while the last child has keys. */
  function PredecessorPath<V>(n: Node<V>): (p: seq<int>)
    ensures ValidPath(n, p)
    decreases n
  {
    if |n.children| == 0 then []
    else if |n.children[|n.children| - 1].entries| == 0 then []
    else
      var p := PredecessorPath(n.children[|n.children| - 1]);
      assert ([|n.children| - 1] + p)[1..] == p;
      [|n.children| - 1] + p
  }

  // ---------------------------------------------------------------------------
  // Insert

  /**
   * The first lines of `insert(node:left:right:key:value:at:)`: entry `e` into slot `i`
   * and, for a split child, its two halves in place of child `i`.
   */
  function InsertInto<V>(n: Node<V>, halves: Option<(Node<V>, Node<V>)>, e: Entry<V>, i: nat): Node<V>
    requires i <= |n.entries| && (halves.Some? ==> i < |n.children|)
  {
    Node(n.entries[..i] + [e] + n.entries[i..],
         if halves.Some? then n.children[..i] + [halves.value.0, halves.value.1] + n.children[i + 1..]
         else n.children)
  }

  /** The left half of an overflowing node: the keys before `keys.count / 2` and the children up to it. */
  function SplitLeft<V>(n: Node<V>): Node<V>
    requires |n.children| == 0 || |n.children| > |n.entries| / 2
  {
    var s := |n.entries| / 2;
    Node(n.entries[..s], if |n.children| > 0 then n.children[..s + 1] else [])
  }

  /** The right half: the keys and children after `keys.count / 2`. */
  function SplitRight<V>(n: Node<V>): Node<V>
    requires |n.entries| > 0 && (|n.children| == 0 || |n.children| > |n.entries| / 2)
  {
    var s := |n.entries| / 2;
    Node(n.entries[s + 1..], if |n.children| > 0 then n.children[s + 1..] else [])
  }

  /**
   * `insert(node:left:right:key:value:at:)` on the node at `p`: insert, and when the
   * node has more than `m - 1` keys split it at `keys.count / 2`, making a new root of
   * the median over the halves at the root, or inserting the median and the halves
   * into the parent at the slot the parent's search for `e.key` gives.
   */
  function InsertUp<V>(s: Search, t: Node<V>, m: int, p: seq<int>, halves: Option<(Node<V>, Node<V>)>, e: Entry<V>, i: nat): Node<V>
    requires Shaped(t) && ValidPath(t, p) && i <= |At(t, p).entries| && (halves.Some? ==> i < |At(t, p).children|)
    decreases |p|
  {
    ShapedAt(t, p);
    var n := InsertInto(At(t, p), halves, e, i);
    if |n.entries| <= m - 1 then Replace(t, p, n)
    else
      var left, right, median := SplitLeft(n), SplitRight(n), n.entries[|n.entries| / 2];
      if |p| == 0 then Node([median], [left, right])
      else
        var q := p[..|p| - 1];
        PathParent(t, p);
        ShapedAt(t, q);
        var (_, j) := Point(s, KeysOf(At(t, q).entries), e.key);
        InsertUp(s, t, m, q, Some((left, right)), median, j)
  }

  /** `insert(_:forKey:)`: a one-key leaf for an empty tree, a new value for a present key, else an insert at the leaf. */
  function InsertKey<V>(s: Search, root: Option<Node<V>>, m: int, k: int, v: V): Option<Node<V>>
    requires root.Some? ==> Shaped(root.value)
  {
    if root.None? then Some(Node([Entry(k, v)], []))
    else
      var t := root.value;
      var (p, i) := FindForUpdate(s, t, k);
      var n := At(t, p);
      if i < |n.entries| && n.entries[i].key == k then
        Some(Replace(t, p, n.(entries := n.entries[i := Entry(k, v)])))
      else
        ShapedAt(t, p);
        Some(InsertUp(s, t, m, p, None, Entry(k, v), i))
  }

  /** Every node below a shaped node is shaped. */
  lemma {:induction false} ShapedAt<V>(t: Node<V>, p: seq<int>)
    requires Shaped(t) && ValidPath(t, p)
    ensures Shaped(At(t, p))
    decreases |p|
  {
    if |p| > 0 {
      ShapedAt(t.children[p[0]], p[1..]);
    }
  }

  // ---------------------------------------------------------------------------
  // In-order entries around one entry of a node

  lemma Regroup<T>(b: seq<T>, u: seq<T>, x: T, w: seq<T>, c: seq<T>)
    ensures b + (u + [x] + w) + c == (b + u) + [x] + (w + c)
  {
  }

  lemma Regroup2<T>(a: seq<T>, b: seq<T>, c: seq<T>, d: seq<T>)
    ensures a + (b + c) + d == (a + b) + (c + d)
  {
  }

  /** The in-order entries of a node before its entry `i`. */
  ghost function Left<V>(n: Node<V>, i: nat): seq<Entry<V>>
    requires i <= |n.entries| && (|n.children| == 0 || i < |n.children|)
  {
    if |n.children| == 0 then n.entries[..i] else Before(n, i) + Elems(n.children[i])
  }

  /** The in-order entries of a node after its entry `i`. */
  ghost function Right<V>(n: Node<V>, i: nat): seq<Entry<V>>
    requires i < |n.entries|
  {
    if |n.children| == 0 then n.entries[i + 1..] else Span(n, i + 1)
  }

  lemma EntryAround<V>(n: Node<V>, i: nat)
    requires i < |n.entries| && (|n.children| == 0 || |n.children| == |n.entries| + 1)
    ensures Elems(n) == Left(n, i) + [n.entries[i]] + Right(n, i)
  {
    if |n.children| == 0 {
      assert n.entries == n.entries[..i] + [n.entries[i]] + n.entries[i + 1..];
    } else {
      ElemsAround(n, i);
    }
  }

  /** The children and separators from `i` on fix the in-order entries from `i` on. */
  lemma {:induction false} SpanSameFrom<V>(n: Node<V>, n': Node<V>, i: nat)
    requires n'.children == n.children && |n'.entries| == |n.entries|
    requires forall j :: i <= j < |n.entries| ==> n'.entries[j] == n.entries[j]
    ensures Span(n', i) == Span(n, i)
    decreases |n.children| - i
  {
    if i < |n.children| {
      SpanSameFrom(n, n', i + 1);
      assert Sep(n', i) == Sep(n, i);
    }
  }

  /** The children and separators before `i` fix the in-order entries before `i`. */
  lemma {:induction false} BeforeSameUpTo<V>(n: Node<V>, n': Node<V>, i: nat)
    requires n'.children == n.children && i <= |n.children| && |n'.entries| == |n.entries|
    requires forall j :: 0 <= j < i && j < |n.entries| ==> n'.entries[j] == n.entries[j]
    ensures Before(n', i) == Before(n, i)
  {
    if i > 0 {
      BeforeSameUpTo(n, n', i - 1);
      assert Sep(n', i - 1) == Sep(n, i - 1);
    }
  }

  /** Overwriting entry `i` changes only that place of the in-order entries. */
  lemma EntrySet<V>(n: Node<V>, i: nat, e: Entry<V>)
    requires i < |n.entries| && (|n.children| == 0 || |n.children| == |n.entries| + 1)
    ensures Elems(n.(entries := n.entries[i := e])) == Left(n, i) + [e] + Right(n, i)
  {
    var n' := n.(entries := n.entries[i := e]);
    EntryAround(n', i);
    if |n.children| == 0 {
      assert n'.entries[..i] == n.entries[..i] && n'.entries[i + 1..] == n.entries[i + 1..];
    } else {
      BeforeSameUpTo(n, n', i);
      SpanSameFrom(n, n', i + 1);
    }
  }

  lemma BelowAppend<V>(a: seq<Entry<V>>, b: seq<Entry<V>>, k: int)
    ensures Below(a + b, k) <==> Below(a, k) && Below(b, k)
  {
    if Below(a + b, k) {
      forall j | 0 <= j < |a| ensures a[j].key < k { assert (a + b)[j] == a[j]; }
      forall j | 0 <= j < |b| ensures b[j].key < k { assert (a + b)[|a| + j] == b[j]; }
    }
  }

  lemma AboveAppend<V>(a: seq<Entry<V>>, b: seq<Entry<V>>, k: int)
    ensures Above(a + b, k) <==> Above(a, k) && Above(b, k)
  {
    if Above(a + b, k) {
      forall j | 0 <= j < |a| ensures a[j].key > k { assert (a + b)[j] == a[j]; }
      forall j | 0 <= j < |b| ensures b[j].key > k { assert (a + b)[|a| + j] == b[j]; }
    }
  }

  /** The separators of the children before `c` are below anything the in-order entries there are below. */
  lemma {:induction false} SepsBelow<V>(n: Node<V>, c: nat, k: int)
    requires c <= |n.children| && Below(Before(n, c), k)
    ensures forall j :: 0 <= j < c && j < |n.entries| ==> n.entries[j].key < k
    decreases c
  {
    if c > 0 {
      BelowAppend(Before(n, c - 1) + Elems(n.children[c - 1]), Sep(n, c - 1), k);
      BelowAppend(Before(n, c - 1), Elems(n.children[c - 1]), k);
      SepsBelow(n, c - 1, k);
      if c - 1 < |n.entries| {
        assert Sep(n, c - 1)[0] == n.entries[c - 1];
      }
    }
  }

  // ---------------------------------------------------------------------------
  // Lookup proofs

  /** The in-order entries around child `i`, whose keys straddle `k`, lie on either side of `k`. */
  lemma ChildBounds<V>(t: Node<V>, i: nat, k: int)
    requires |t.children| == |t.entries| + 1 && i < |t.children| && Sorted(Elems(t))
    requires forall j :: 0 <= j < i ==> t.entries[j].key < k
    requires i < |t.entries| ==> t.entries[i].key > k
    ensures Elems(t) == Before(t, i) + Elems(t.children[i]) + (Sep(t, i) + Span(t, i + 1))
    ensures Sorted(Elems(t.children[i])) && Below(Before(t, i), k) && Above(Sep(t, i) + Span(t, i + 1), k)
  {
    var es, b, c, sp := t.entries, Before(t, i), Elems(t.children[i]), Sep(t, i) + Span(t, i + 1);
    assert Elems(t) == b + c + sp by {
      ElemsAround(t, i);
      AppendAssoc(b + c, Sep(t, i), Span(t, i + 1));
    }
    assert Sorted(c) by {
      SortedAppend(b + c, sp);
      SortedAppend(b, c);
    }
    if i > 0 {
      BeforeBelow(t, i, k);
    }
    if i < |es| {
      AfterAbove(t, i, k);
    }
  }

  /** The in-order entries before child `i` are below a key the separator before it is below. */
  lemma BeforeBelow<V>(t: Node<V>, i: nat, k: int)
    requires 0 < i < |t.children| == |t.entries| + 1 && Sorted(Elems(t)) && t.entries[i - 1].key < k
    ensures Below(Before(t, i), k)
  {
    var b' := Before(t, i - 1) + Elems(t.children[i - 1]);
    var rest := Elems(t.children[i]) + Sep(t, i) + Span(t, i + 1);
    assert Before(t, i) == b' + [t.entries[i - 1]];
    assert Elems(t) == b' + [t.entries[i - 1]] + rest by {
      ElemsAround(t, i);
      Regroup5(b', [t.entries[i - 1]], Elems(t.children[i]), Sep(t, i), Span(t, i + 1));
    }
    SortedAround(b', t.entries[i - 1], rest);
    BelowAppend(b', [t.entries[i - 1]], k);
  }

  /** The in-order entries after child `i` are above a key its separator is above. */
  lemma AfterAbove<V>(t: Node<V>, i: nat, k: int)
    requires i < |t.entries| && i < |t.children| && Sorted(Elems(t)) && t.entries[i].key > k
    ensures Above(Sep(t, i) + Span(t, i + 1), k)
  {
    var b := Before(t, i) + Elems(t.children[i]);
    assert Elems(t) == b + [t.entries[i]] + Span(t, i + 1) by {
      ElemsAround(t, i);
    }
    SortedAround(b, t.entries[i], Span(t, i + 1));
    AboveAppend([t.entries[i]], Span(t, i + 1), k);
  }

  /** A path through child `i`: the entries before and after it gain those of the node around child `i`. */
  lemma ConsPath<V>(t: Node<V>, i: nat, p: seq<int>)
    requires i < |t.children| && ValidPath(t.children[i], p)
    ensures ValidPath(t, [i] + p) && At(t, [i] + p) == At(t.children[i], p)
    ensures Pre(t, [i] + p) == Before(t, i) + Pre(t.children[i], p)
    ensures Post(t, [i] + p) == Post(t.children[i], p) + (Sep(t, i) + Span(t, i + 1))
  {
    var q := [i] + p;
    assert q[0] == i && q[1..] == p;
    assert Post(t, q) == Post(t.children[i], p) + Sep(t, i) + Span(t, i + 1);
    AppendAssoc(Post(t.children[i], p), Sep(t, i), Span(t, i + 1));
  }

  /** A hit inside child `i`, seen from the node above. */
  lemma HitStep<V>(t: Node<V>, i: nat, p: seq<int>, j: nat)
    requires i < |t.children| && ValidPath(t.children[i], p) && j < |At(t.children[i], p).entries|
    requires |At(t.children[i], p).children| == 0 || |At(t.children[i], p).children| == |At(t.children[i], p).entries| + 1
    requires Elems(t.children[i]) == (Pre(t.children[i], p) + Left(At(t.children[i], p), j)) +
      [At(t.children[i], p).entries[j]] + (Right(At(t.children[i], p), j) + Post(t.children[i], p))
    requires Elems(t) == Before(t, i) + Elems(t.children[i]) + (Sep(t, i) + Span(t, i + 1))
    ensures ValidPath(t, [i] + p) && At(t, [i] + p) == At(t.children[i], p)
    ensures Elems(t) == (Pre(t, [i] + p) + Left(At(t, [i] + p), j)) + [At(t, [i] + p).entries[j]] +
      (Right(At(t, [i] + p), j) + Post(t, [i] + p))
  {
    var c, n := t.children[i], At(t.children[i], p);
    ConsPath(t, i, p);
    Regroup(Before(t, i), Pre(c, p) + Left(n, j), n.entries[j], Right(n, j) + Post(c, p), Sep(t, i) + Span(t, i + 1));
    AppendAssoc(Before(t, i), Pre(c, p), Left(n, j));
    AppendAssoc(Right(n, j), Post(c, p), Sep(t, i) + Span(t, i + 1));
  }

  /** A miss at a leaf below child `i`, seen from the node above. */
  lemma MissStep<V>(t: Node<V>, i: nat, p: seq<int>, j: nat, k: int)
    requires i < |t.children| && ValidPath(t.children[i], p) && j <= |At(t.children[i], p).entries|
    requires Below(Pre(t.children[i], p) + At(t.children[i], p).entries[..j], k)
    requires Above(At(t.children[i], p).entries[j..] + Post(t.children[i], p), k)
    requires Below(Before(t, i), k) && Above(Sep(t, i) + Span(t, i + 1), k)
    ensures ValidPath(t, [i] + p) && At(t, [i] + p) == At(t.children[i], p)
    ensures Below(Pre(t, [i] + p) + At(t, [i] + p).entries[..j], k)
    ensures Above(At(t, [i] + p).entries[j..] + Post(t, [i] + p), k)
  {
    var c, n, sp := t.children[i], At(t.children[i], p), Sep(t, i) + Span(t, i + 1);
    ConsPath(t, i, p);
    BelowAppend(Before(t, i), Pre(c, p) + n.entries[..j], k);
    AboveAppend(n.entries[j..] + Post(c, p), sp, k);
    AppendAssoc(Before(t, i), Pre(c, p), n.entries[..j]);
    AppendAssoc(n.entries[j..], Post(c, p), sp);
  }

  /**
   * Where `findForUpdate` stops on a sorted tree: at the entry with key `k`, or at
   * the slot of a leaf with everything in order before it below `k` and everything
   * from it on above `k`.
   */
  lemma {:induction false} DescentSound<V>(t: Node<V>, k: int)
    requires Shaped(t) && Sorted(Elems(t))
    ensures var (p, i) := FindForUpdate(Intended, t, k); var n := At(t, p);
      if i < |n.entries| && n.entries[i].key == k then
        (|n.children| == 0 || |n.children| == |n.entries| + 1) &&
        Elems(t) == (Pre(t, p) + Left(n, i)) + [n.entries[i]] + (Right(n, i) + Post(t, p))
      else
        |n.children| == 0 && Below(Pre(t, p) + n.entries[..i], k) && Above(n.entries[i..] + Post(t, p), k)
    decreases t, 1
  {
    var es := t.entries;
    var i := LowerBound(KeysOf(es), k);
    if i < |es| && es[i].key == k {
      DescentHit(t, k);
    } else if |t.children| == 0 {
      DescentLeaf(t, k);
    } else {
      DescentInner(t, k);
    }
  }

  /** `DescentSound` at a node that holds `k`. */
  lemma DescentHit<V>(t: Node<V>, k: int)
    requires Shaped(t)
    requires var i := LowerBound(KeysOf(t.entries), k); i < |t.entries| && t.entries[i].key == k
    ensures var (p, i) := FindForUpdate(Intended, t, k); var n := At(t, p);
      if i < |n.entries| && n.entries[i].key == k then
        (|n.children| == 0 || |n.children| == |n.entries| + 1) &&
        Elems(t) == (Pre(t, p) + Left(n, i)) + [n.entries[i]] + (Right(n, i) + Post(t, p))
      else
        |n.children| == 0 && Below(Pre(t, p) + n.entries[..i], k) && Above(n.entries[i..] + Post(t, p), k)
  {
    var es := t.entries;
    var i := LowerBound(KeysOf(es), k);
    assert FindForUpdate(Intended, t, k) == ([], i);
    assert At(t, []) == t && Pre(t, []) == [] && Post(t, []) == [];
    EntryAround(t, i);
    assert ([] + Left(t, i)) + [es[i]] + (Right(t, i) + []) == Left(t, i) + [es[i]] + Right(t, i);
  }

  /** `DescentSound` at a leaf that does not hold `k`. */
  lemma DescentLeaf<V>(t: Node<V>, k: int)
    requires Shaped(t) && Sorted(Elems(t)) && |t.children| == 0
    requires var i := LowerBound(KeysOf(t.entries), k); !(i < |t.entries| && t.entries[i].key == k)
    ensures var (p, i) := FindForUpdate(Intended, t, k); var n := At(t, p);
      if i < |n.entries| && n.entries[i].key == k then
        (|n.children| == 0 || |n.children| == |n.entries| + 1) &&
        Elems(t) == (Pre(t, p) + Left(n, i)) + [n.entries[i]] + (Right(n, i) + Post(t, p))
      else
        |n.children| == 0 && Below(Pre(t, p) + n.entries[..i], k) && Above(n.entries[i..] + Post(t, p), k)
  {
    var es := t.entries;
    var i := LowerBound(KeysOf(es), k);
    assert FindForUpdate(Intended, t, k) == ([], i);
    assert At(t, []) == t && Pre(t, []) == [] && Post(t, []) == [];
    assert Elems(t) == es;
    LowerBoundSplit(es, k);
    assert [] + es[..i] == es[..i] && es[i..] + [] == es[i..];
  }

  /** `DescentSound` through an inner node that does not hold `k`. */
  lemma {:induction false} DescentInner<V>(t: Node<V>, k: int)
    requires Shaped(t) && Sorted(Elems(t)) && |t.children| > 0
    requires var i := LowerBound(KeysOf(t.entries), k); !(i < |t.entries| && t.entries[i].key == k)
    ensures var (p, i) := FindForUpdate(Intended, t, k); var n := At(t, p);
      if i < |n.entries| && n.entries[i].key == k then
        (|n.children| == 0 || |n.children| == |n.entries| + 1) &&
        Elems(t) == (Pre(t, p) + Left(n, i)) + [n.entries[i]] + (Right(n, i) + Post(t, p))
      else
        |n.children| == 0 && Below(Pre(t, p) + n.entries[..i], k) && Above(n.entries[i..] + Post(t, p), k)
    decreases t, 0
  {
    var es := t.entries;
    var i := LowerBound(KeysOf(es), k);
    var c := t.children[i];
    assert forall j :: 0 <= j < i ==> es[j].key < k by {
      forall j | 0 <= j < i ensures es[j].key < k { assert KeysOf(es)[j] < k; }
    }
    assert i < |es| ==> es[i].key > k by {
      if i < |es| { assert KeysOf(es)[i] >= k; }
    }
    ChildBounds(t, i, k);
    DescentSound(c, k);
    var (p, j) := FindForUpdate(Intended, c, k);
    assert FindForUpdate(Intended, t, k) == ([i] + p, j);
    var n := At(c, p);
    if j < |n.entries| && n.entries[j].key == k {
      HitStep(t, i, p, j);
    } else {
      MissStep(t, i, p, j, k);
    }
  }

  /** `find` goes where `findForUpdate` goes and reports the entry found there, if any. */
  lemma {:induction false} FindInAlong<V>(t: Node<V>, k: int)
    requires Shaped(t)
    ensures var (p, i) := FindForUpdate(Intended, t, k); var n := At(t, p);
      FindIn(t, k) == if i < |n.entries| && n.entries[i].key == k then Some(Slice(k, n.entries[i].value)) else None
    decreases t
  {
    var i := LowerBound(KeysOf(t.entries), k);
    if !(i < |t.entries| && t.entries[i].key == k) && |t.children| > 0 {
      FindInAlong(t.children[i], k);
      var (p', j) := FindForUpdate(Intended, t.children[i], k);
      assert ([i] + p')[1..] == p';
    }
  }

  /** `find(node:key:)` on a valid tree reports exactly the value stored under `k`. */
  lemma FindSound<V>(t: Node<V>, m: int, k: int)
    requires ValidTree(t, m)
    ensures FindIn(t, k) == if Get(Elems(t), k).Some? then Some(Slice(k, Get(Elems(t), k).value)) else None
  {
    FindInAlong(t, k);
    var (p, i) := FindForUpdate(Intended, t, k);
    var n := At(t, p);
    if i < |n.entries| && n.entries[i].key == k {
      ShapedAt(t, p);
      var a, b := Pre(t, p) + Left(n, i), Right(n, i) + Post(t, p);
      assert Elems(t) == a + [n.entries[i]] + b by {
        DescentSound(t, k);
      }
      assert Below(a, k) by {
        SortedAround(a, n.entries[i], b);
      }
      GetHit(a, n.entries[i], b);
    } else {
      var a, b := Pre(t, p) + n.entries[..i], n.entries[i..] + Post(t, p);
      assert Below(a, k) && Above(b, k) && Elems(t) == a + b by {
        DescentSound(t, k);
        ElemsAt(t, p);
        assert n.entries == n.entries[..i] + n.entries[i..];
        Regroup2(Pre(t, p), n.entries[..i], n.entries[i..], Post(t, p));
      }
      GetMiss(a, b, k);
    }
  }

  // ---------------------------------------------------------------------------
  // Insert proofs

  /** The children of `n` meet the bounds of nodes below the root. */
  ghost predicate KidsFit<V>(n: Node<V>, m: int) {
    forall j :: 0 <= j < |n.children| ==> Fits(n.children[j], m, MinKeys(m), None)
  }

  /** Inserting the halves of child `c` and their median in its place puts their entries where the child's were. */
  lemma InsertIntoHalves<V>(n: Node<V>, c: nat, l: Node<V>, e: Entry<V>, r: Node<V>)
    requires |n.children| == |n.entries| + 1 && c < |n.children|
    ensures Elems(InsertInto(n, Some((l, r)), e, c)) == Before(n, c) + (Elems(l) + [e] + Elems(r)) + Sep(n, c) + Span(n, c + 1)
  {
    var x := InsertInto(n, Some((l, r)), e, c);
    HalvesAfter(n, c, l, e, r);
    HalvesBefore(n, c, l, e, r);
    ElemsAround(x, c);
    Regroup6(Before(n, c), Elems(l), [e], Elems(r), Sep(n, c), Span(n, c + 1));
  }

  lemma HalvesAfter<V>(n: Node<V>, c: nat, l: Node<V>, e: Entry<V>, r: Node<V>)
    requires |n.children| == |n.entries| + 1 && c < |n.children|
    ensures var x := InsertInto(n, Some((l, r)), e, c);
      x.children[c] == l && Sep(x, c) == [e] && Span(x, c + 1) == Elems(r) + Sep(n, c) + Span(n, c + 1)
  {
    var x := InsertInto(n, Some((l, r)), e, c);
    assert x.children[c + 1] == r && Sep(x, c + 1) == Sep(n, c);
    assert x.children == n.children[..c] + [l, r] + n.children[c + 1..];
    assert x.entries == n.entries[..c] + [e] + n.entries[c..];
    forall j | c + 1 <= j < |n.children|
      ensures x.children[1 + j] == n.children[j] && Sep(x, 1 + j) == Sep(n, j)
    {
      assert x.children[1 + j] == n.children[c + 1..][j - c - 1];
      if j < |n.entries| {
        assert x.entries[1 + j] == n.entries[c..][j - c];
      }
    }
    SpanOffset(x, n, 1, c + 1);
  }

  lemma HalvesBefore<V>(n: Node<V>, c: nat, l: Node<V>, e: Entry<V>, r: Node<V>)
    requires |n.children| == |n.entries| + 1 && c < |n.children|
    ensures Before(InsertInto(n, Some((l, r)), e, c), c) == Before(n, c)
  {
    var x := InsertInto(n, Some((l, r)), e, c);
    forall j | 0 <= j < c
      ensures Sep(x, j) == Sep(n, j)
    {
    }
    assert x.children[..c] == n.children[..c];
    BeforeSame(x, n, c);
  }

  lemma Regroup6<T>(b: seq<T>, l: seq<T>, e: seq<T>, r: seq<T>, s: seq<T>, p: seq<T>)
    ensures b + l + e + (r + s + p) == b + (l + e + r) + s + p
  {
  }

  /** An overflowing node is its left half, its median and its right half. */
  lemma SplitJoin<V>(n: Node<V>)
    requires |n.entries| > 0 && (|n.children| == 0 || |n.children| == |n.entries| + 1)
    ensures Join(SplitLeft(n), n.entries[|n.entries| / 2], SplitRight(n)) == n
    ensures Matched(SplitLeft(n), SplitRight(n))
    ensures Elems(n) == Elems(SplitLeft(n)) + [n.entries[|n.entries| / 2]] + Elems(SplitRight(n))
  {
    var l, e, r := SplitLeft(n), n.entries[|n.entries| / 2], SplitRight(n);
    SplitPieces(n);
    JoinElems(l, e, r);
  }

  lemma SplitPieces<V>(n: Node<V>)
    requires |n.entries| > 0 && (|n.children| == 0 || |n.children| == |n.entries| + 1)
    ensures Join(SplitLeft(n), n.entries[|n.entries| / 2], SplitRight(n)) == n
    ensures Matched(SplitLeft(n), SplitRight(n))
  {
    var s := |n.entries| / 2;
    assert n.entries[..s] + [n.entries[s]] + n.entries[s + 1..] == n.entries;
    if |n.children| > 0 {
      assert n.children[..s + 1] + n.children[s + 1..] == n.children;
    }
  }

  /** `InsertInto` keeps the depth of the leaves and the bounds of the children, and adds one entry. */
  lemma InsertIntoShape<V>(n: Node<V>, halves: Option<(Node<V>, Node<V>)>, e: Entry<V>, i: nat, m: int, h: nat)
    requires Uniform(n, h) && KidsFit(n, m) && i <= |n.entries|
    requires halves.None? ==> h == 0
    requires halves.Some? ==> (h > 0 && i < |n.children| &&
      Uniform(halves.value.0, h - 1) && Uniform(halves.value.1, h - 1) &&
      Fits(halves.value.0, m, MinKeys(m), None) && Fits(halves.value.1, m, MinKeys(m), None))
    ensures Uniform(InsertInto(n, halves, e, i), h) && KidsFit(InsertInto(n, halves, e, i), m)
    ensures |InsertInto(n, halves, e, i).entries| == |n.entries| + 1
  {
    if halves.Some? {
      var x := InsertInto(n, halves, e, i);
      forall j | 0 <= j < |x.children|
        ensures Uniform(x.children[j], h - 1) && Fits(x.children[j], m, MinKeys(m), None)
      {
        if j < i {
          assert x.children[j] == n.children[j];
        } else if j > i + 1 {
          assert x.children[j] == n.children[j - 1];
        }
      }
    }
  }

  /** The halves of a node with `m` entries are of its height and hold at least `minKeys` entries each. */
  lemma SplitShape<V>(x: Node<V>, m: int, h: nat)
    requires m >= 3 && |x.entries| == m && Uniform(x, h) && KidsFit(x, m)
    ensures |x.children| == 0 || |x.children| == |x.entries| + 1
    ensures Uniform(SplitLeft(x), h) && Uniform(SplitRight(x), h)
    ensures Fits(SplitLeft(x), m, MinKeys(m), None) && Fits(SplitRight(x), m, MinKeys(m), None)
  {
    var s := m / 2;
    var l, r := SplitLeft(x), SplitRight(x);
    if h > 0 {
      forall j | 0 <= j < |l.children|
        ensures l.children[j] == x.children[j]
      {
      }
      forall j | 0 <= j < |r.children|
        ensures r.children[j] == x.children[s + 1 + j]
      {
      }
    }
  }

  /** A key inside child `c` of a sorted node is placed by the node's search at slot `c`. */
  lemma SlotOfKey<V>(n: Node<V>, c: nat, x: Node<V>, a: seq<Entry<V>>, e: Entry<V>, b: seq<Entry<V>>)
    requires |n.children| == |n.entries| + 1 && c < |n.children|
    requires Elems(x) == a + [e] + b && Sorted(Elems(n.(children := n.children[c := x])))
    ensures LowerBound(KeysOf(n.entries), e.key) == c
  {
    var bc, sp := Before(n, c), Sep(n, c) + Span(n, c + 1);
    assert Elems(n.(children := n.children[c := x])) == (bc + a) + [e] + (b + sp) by {
      ElemsChild(n, c, x);
      AppendAssoc(bc + Elems(x), Sep(n, c), Span(n, c + 1));
      Regroup(bc, a, e, b, sp);
    }
    SortedAround(bc + a, e, b + sp);
    BelowAppend(bc, a, e.key);
    SepsBelow(n, c, e.key);
    if c < |n.entries| {
      assert (b + sp)[|b|] == n.entries[c];
    }
    LowerBoundUnique(KeysOf(n.entries), e.key, c);
  }

  /** A fitting tree of order `m`. */
  ghost predicate TreeArgs<V>(t: Node<V>, m: int) {
    m >= 3 && Shaped(t) && Uniform(t, Height(t)) && Fits(t, m, 1, None)
  }

  /** A node of height `h` that fits below the root. */
  ghost predicate HalfFits<V>(n: Node<V>, m: int, h: int) {
    h >= 0 && Uniform(n, h) && Fits(n, m, MinKeys(m), None)
  }

  /**
   * What `InsertUp` is given: a fitting tree, a slot at `p`, and halves of height `d`
   * and of the bounds of the child they replace.
   */
  ghost predicate InsertArgs<V>(t: Node<V>, m: int, p: seq<int>, halves: Option<(Node<V>, Node<V>)>, e: Entry<V>, i: nat, want: seq<Entry<V>>, d: int) {
    SlotArgs(t, m, p, halves, i, d) &&
    Elems(Replace(t, p, InsertInto(At(t, p), halves, e, i))) == want && Sorted(want)
  }

  /** The shape part of `InsertArgs`. */
  ghost predicate SlotArgs<V>(t: Node<V>, m: int, p: seq<int>, halves: Option<(Node<V>, Node<V>)>, i: nat, d: int) {
    TreeArgs(t, m) && ValidPath(t, p) && i <= |At(t, p).entries| && |p| + d + 1 == Height(t) &&
    (halves.None? ==> |At(t, p).children| == 0) &&
    (halves.Some? ==> i < |At(t, p).children| && d >= 0) &&
    HalvesFit(halves, m, d)
  }

  /** Halves, when there are any, of height `h` that fit below the root. */
  ghost predicate HalvesFit<V>(halves: Option<(Node<V>, Node<V>)>, m: int, h: int) {
    halves.Some? ==> HalfFits(halves.value.0, m, h) && HalfFits(halves.value.1, m, h)
  }

  /** The node at `p` after the insert, before any split. */
  lemma InsertedNode<V>(t: Node<V>, m: int, p: seq<int>, halves: Option<(Node<V>, Node<V>)>, e: Entry<V>, i: nat, d: int)
    requires SlotArgs(t, m, p, halves, i, d)
    ensures |p| <= Height(t)
    ensures var x := InsertInto(At(t, p), halves, e, i);
      Uniform(x, Height(t) - |p|) && KidsFit(x, m) && LoAt(m, 1, p) <= |x.entries| <= m
  {
    var h, n := Height(t), At(t, p);
    NodeAtFits(t, m, p);
    InsertIntoShape(n, halves, e, i, m, h - |p|);
  }

  /** The node at `p` of a fitting tree is of its height less `|p|`, and its children fit below the root. */
  lemma NodeAtFits<V>(t: Node<V>, m: int, p: seq<int>)
    requires TreeArgs(t, m) && ValidPath(t, p)
    ensures |p| <= Height(t) && Uniform(At(t, p), Height(t) - |p|)
    ensures KidsFit(At(t, p), m) && LoAt(m, 1, p) <= |At(t, p).entries| <= m - 1
  {
    UniformAt(t, Height(t), p);
    FitsAt(t, m, 1, None, p);
    var n := At(t, p);
    assert DownPath(None, p) == None;
    forall j | 0 <= j < |n.children|
      ensures Fits(n.children[j], m, MinKeys(m), None)
    {
      assert Down(None, j) == None;
    }
  }

  /** A split of the root: a new root holding the median over the two halves. */
  lemma RootSplitSound<V>(x: Node<V>, m: int, h: nat)
    requires m >= 3 && |x.entries| == m && Uniform(x, h) && KidsFit(x, m)
    ensures |x.children| == 0 || |x.children| == |x.entries| + 1
    ensures var r := Node([x.entries[|x.entries| / 2]], [SplitLeft(x), SplitRight(x)]);
      Elems(r) == Elems(x) && Fits(r, m, 1, None) && Uniform(r, h + 1) && |r.entries| == 1
  {
    SplitShape(x, m, h);
    SplitJoin(x);
    var l, r, med := SplitLeft(x), SplitRight(x), x.entries[|x.entries| / 2];
    NewRootElems(l, med, r);
    NewRootShape(l, med, r, m, h);
  }

  lemma NewRootElems<V>(l: Node<V>, med: Entry<V>, r: Node<V>)
    ensures Elems(Node([med], [l, r])) == Elems(l) + [med] + Elems(r)
  {
    var root := Node([med], [l, r]);
    assert Span(root, 1) == Elems(r) + [] + [];
  }

  lemma NewRootShape<V>(l: Node<V>, med: Entry<V>, r: Node<V>, m: int, h: nat)
    requires m >= 3 && Uniform(l, h) && Uniform(r, h)
    requires Fits(l, m, MinKeys(m), None) && Fits(r, m, MinKeys(m), None)
    ensures Fits(Node([med], [l, r]), m, 1, None) && Uniform(Node([med], [l, r]), h + 1)
  {
    var root := Node([med], [l, r]);
    assert root.children[0] == l && root.children[1] == r;
  }

  /** The tree with node `x` at `p` is the tree with `x` as child `c` of the parent at `q`. */
  lemma ParentView<V>(t: Node<V>, p: seq<int>, x: Node<V>)
    requires ValidPath(t, p) && |p| > 0
    ensures var q, c := p[..|p| - 1], p[|p| - 1];
      ValidPath(t, q) && 0 <= c < |At(t, q).children| && At(t, q).children[c] == At(t, p) &&
      Replace(t, p, x) == Replace(t, q, At(t, q).(children := At(t, q).children[c := x])) &&
      Elems(Replace(t, p, x)) == Pre(t, q) + Elems(At(t, q).(children := At(t, q).children[c := x])) + Post(t, q)
  {
    var q, c := p[..|p| - 1], p[|p| - 1];
    PathParent(t, p);
    ReplaceSnoc(t, q, c, x);
    assert q + [c] == p;
    ElemsReplace(t, q, At(t, q).(children := At(t, q).children[c := x]));
  }

  /** The parent's search for a key of the inserted child finds that child's slot. */
  lemma ParentSlot<V>(t: Node<V>, p: seq<int>, x: Node<V>, i: nat)
    requires Shaped(t) && ValidPath(t, p) && |p| > 0 && Sorted(Elems(Replace(t, p, x)))
    requires i < |x.entries| && (|x.children| == 0 || |x.children| == |x.entries| + 1)
    ensures var q := p[..|p| - 1];
      ValidPath(t, q) && LowerBound(KeysOf(At(t, q).entries), x.entries[i].key) == p[|p| - 1]
  {
    var q, c := p[..|p| - 1], p[|p| - 1];
    ParentView(t, p, x);
    var pn := At(t, q);
    var pn' := pn.(children := pn.children[c := x]);
    ShapedAt(t, q);
    assert Sorted(Elems(pn')) by {
      SortedAppend(Pre(t, q) + Elems(pn'), Post(t, q));
      SortedAppend(Pre(t, q), Elems(pn'));
    }
    EntryAround(x, i);
    SlotOfKey(pn, c, x, Left(x, i), x.entries[i], Right(x, i));
  }

  /** Putting the halves and median of child `c` into the parent keeps the tree's entries. */
  lemma ParentElems<V>(t: Node<V>, p: seq<int>, x: Node<V>)
    requires Shaped(t) && ValidPath(t, p) && |p| > 0
    requires |x.entries| > 0 && (|x.children| == 0 || |x.children| == |x.entries| + 1)
    ensures var q, c := p[..|p| - 1], p[|p| - 1];
      ValidPath(t, q) && 0 <= c < |At(t, q).children| && c <= |At(t, q).entries| &&
      Elems(Replace(t, q, InsertInto(At(t, q), Some((SplitLeft(x), SplitRight(x))), x.entries[|x.entries| / 2], c))) ==
      Elems(Replace(t, p, x))
  {
    var q, c := p[..|p| - 1], p[|p| - 1];
    var l, r, med := SplitLeft(x), SplitRight(x), x.entries[|x.entries| / 2];
    ParentView(t, p, x);
    var pn := At(t, q);
    ShapedAt(t, q);
    var y := InsertInto(pn, Some((l, r)), med, c);
    assert Elems(y) == Elems(pn.(children := pn.children[c := x])) by {
      SplitJoin(x);
      InsertIntoHalves(pn, c, l, med, r);
      ElemsChild(pn, c, x);
    }
    ElemsReplace(t, q, y);
  }

  /** The halves of a full node of height `d` fit, at that height, below the root. */
  lemma SplitFits<V>(x: Node<V>, m: int, d: int, hx: nat)
    requires m >= 3 && |x.entries| == m && d == hx && Uniform(x, hx) && KidsFit(x, m)
    ensures HalvesFit(Some((SplitLeft(x), SplitRight(x))), m, d)
  {
    SplitShape(x, m, hx);
  }

  /** A split below the root: the parent's search finds the slot of the split child, and the parent's insert keeps the entries. */
  lemma ParentStep<V>(t: Node<V>, m: int, p: seq<int>, halves: Option<(Node<V>, Node<V>)>, e: Entry<V>, i: nat, want: seq<Entry<V>>, d: int, d': int)
    requires InsertArgs(t, m, p, halves, e, i, want, d) && |p| > 0 && d' == d + 1
    requires |InsertInto(At(t, p), halves, e, i).entries| == m
    ensures |p| <= Height(t)
    ensures var x := InsertInto(At(t, p), halves, e, i);
      |x.children| == 0 || |x.children| == |x.entries| + 1
    ensures var x := InsertInto(At(t, p), halves, e, i);
      var q, c := p[..|p| - 1], p[|p| - 1];
      var halves' := Some((SplitLeft(x), SplitRight(x)));
      ValidPath(t, q) && LowerBound(KeysOf(At(t, q).entries), e.key) == c &&
      InsertArgs(t, m, q, halves', x.entries[|x.entries| / 2], c, want, d')
  {
    var x := InsertInto(At(t, p), halves, e, i);
    InsertedNode(t, m, p, halves, e, i, d);
    SplitShape(x, m, Height(t) - |p|);
    ParentSlot(t, p, x, i);
    assert x.entries[i] == e;
    SplitArgs(t, m, p, x, want, d');
  }

  /** The arguments of the call of `InsertUp` that carries the halves of the full node `x` at `p` up to its parent. */
  lemma SplitArgs<V>(t: Node<V>, m: int, p: seq<int>, x: Node<V>, want: seq<Entry<V>>, d: int)
    requires TreeArgs(t, m) && ValidPath(t, p) && 0 < |p| <= Height(t) && p[|p| - 1] >= 0
    requires d == Height(t) - |p| && |x.entries| == m && Uniform(x, Height(t) - |p|) && KidsFit(x, m)
    requires |x.children| == 0 || |x.children| == |x.entries| + 1
    requires Elems(Replace(t, p, x)) == want && Sorted(want)
    ensures InsertArgs(t, m, p[..|p| - 1], Some((SplitLeft(x), SplitRight(x))), x.entries[|x.entries| / 2], p[|p| - 1], want, d)
  {
    SplitFits(x, m, d, Height(t) - |p|);
    ParentElems(t, p, x);
  }

  /** A tree of height `h`, or one higher under a root with a single key. */
  ghost predicate Grown<V>(r: Node<V>, h: nat) {
    Uniform(r, h) || (Uniform(r, h + 1) && |r.entries| == 1)
  }

  /**
   * `insert(node:left:right:key:value:at:)` keeps a fitting tree with the entries of
   * the plain insert at `p`, of the same height, or one higher with a one-key root.
   */
  lemma {:induction false} InsertUpSound<V>(t: Node<V>, m: int, p: seq<int>, halves: Option<(Node<V>, Node<V>)>, e: Entry<V>, i: nat, want: seq<Entry<V>>, d: int)
    requires InsertArgs(t, m, p, halves, e, i, want, d)
    ensures var r := InsertUp(Intended, t, m, p, halves, e, i);
      Elems(r) == want && Fits(r, m, 1, None) &&
      Grown(r, Height(t))
    decreases |p|
  {
    var x := InsertInto(At(t, p), halves, e, i);
    InsertedNode(t, m, p, halves, e, i, d);
    if |x.entries| <= m - 1 {
      NoSplitCase(t, m, p, halves, e, i, want, d);
    } else if |p| == 0 {
      RootSplitCase(t, m, p, halves, e, i, want, d);
    } else {
      var d' := d + 1;
      ParentStep(t, m, p, halves, e, i, want, d, d');
      UpStep(t, m, p, halves, e, i);
      InsertUpSound(t, m, p[..|p| - 1], Some((SplitLeft(x), SplitRight(x))), x.entries[|x.entries| / 2], p[|p| - 1], want, d');
    }
  }

  /** Without an overflow, the node at `p` is replaced in place. */
  lemma NoSplitCase<V>(t: Node<V>, m: int, p: seq<int>, halves: Option<(Node<V>, Node<V>)>, e: Entry<V>, i: nat, want: seq<Entry<V>>, d: int)
    requires InsertArgs(t, m, p, halves, e, i, want, d)
    requires |InsertInto(At(t, p), halves, e, i).entries| <= m - 1
    ensures var r := InsertUp(Intended, t, m, p, halves, e, i);
      Elems(r) == want && Fits(r, m, 1, None) &&
      Grown(r, Height(t))
  {
    var x := InsertInto(At(t, p), halves, e, i);
    InsertedNode(t, m, p, halves, e, i, d);
    assert InsertUp(Intended, t, m, p, halves, e, i) == Replace(t, p, x);
    ReplaceFits(t, m, p, x);
  }

  /** A node of the right height and bounds put at `p` keeps the tree fitting. */
  lemma ReplaceFits<V>(t: Node<V>, m: int, p: seq<int>, x: Node<V>)
    requires TreeArgs(t, m) && ValidPath(t, p) && |p| <= Height(t)
    requires Uniform(x, Height(t) - |p|) && KidsFit(x, m) && LoAt(m, 1, p) <= |x.entries| <= m - 1
    ensures Fits(Replace(t, p, x), m, 1, None) && Uniform(Replace(t, p, x), Height(t))
  {
    assert Fits(Replace(t, p, x), m, 1, None) by {
      KidsFitFits(x, m, LoAt(m, 1, p));
      assert Lift(p, None) == None;
      FitsReplace(t, m, 1, None, p, x, None);
    }
    UniformReplace(t, Height(t), p, x);
  }

  /** A node whose children fit below the root fits with `lo` to `m - 1` keys. */
  lemma KidsFitFits<V>(x: Node<V>, m: int, lo: int)
    requires KidsFit(x, m) && lo <= |x.entries| <= m - 1
    ensures Fits(x, m, lo, None)
  {
    forall j | 0 <= j < |x.children|
      ensures Fits(x.children[j], m, MinKeys(m), Down(None, j))
    {
      assert Down(None, j) == None;
    }
  }

  /** An overflow at the root: a new root over the two halves. */
  lemma RootSplitCase<V>(t: Node<V>, m: int, p: seq<int>, halves: Option<(Node<V>, Node<V>)>, e: Entry<V>, i: nat, want: seq<Entry<V>>, d: int)
    requires InsertArgs(t, m, p, halves, e, i, want, d) && |p| == 0
    requires |InsertInto(At(t, p), halves, e, i).entries| > m - 1
    ensures var r := InsertUp(Intended, t, m, p, halves, e, i);
      Elems(r) == want && Fits(r, m, 1, None) &&
      Grown(r, Height(t))
  {
    var x := InsertInto(At(t, p), halves, e, i);
    InsertedNode(t, m, p, halves, e, i, d);
    var r := Node([x.entries[|x.entries| / 2]], [SplitLeft(x), SplitRight(x)]);
    assert InsertUp(Intended, t, m, p, halves, e, i) == r;
    assert Replace(t, p, x) == x;
    RootSplitSound(x, m, Height(t));
  }

  /** An overflow below the root: the insert carries on at the parent, in the split child's slot. */
  lemma UpStep<V>(t: Node<V>, m: int, p: seq<int>, halves: Option<(Node<V>, Node<V>)>, e: Entry<V>, i: nat)
    requires Shaped(t) && ValidPath(t, p) && i <= |At(t, p).entries| && (halves.Some? ==> i < |At(t, p).children|)
    requires |p| > 0 && |InsertInto(At(t, p), halves, e, i).entries| > m - 1
    requires var x := InsertInto(At(t, p), halves, e, i); |x.children| == 0 || |x.children| == |x.entries| + 1
    requires ValidPath(t, p[..|p| - 1]) && LowerBound(KeysOf(At(t, p[..|p| - 1]).entries), e.key) == p[|p| - 1]
    requires |At(t, p[..|p| - 1]).children| > p[|p| - 1] >= 0 && p[|p| - 1] <= |At(t, p[..|p| - 1]).entries|
    ensures var x := InsertInto(At(t, p), halves, e, i);
      InsertUp(Intended, t, m, p, halves, e, i) ==
      InsertUp(Intended, t, m, p[..|p| - 1], Some((SplitLeft(x), SplitRight(x))), x.entries[|x.entries| / 2], p[|p| - 1])
  {
  }

  // ---------------------------------------------------------------------------
  // insert(_:forKey:)

  /** The entries of a tree that may be empty. */
  ghost function EntriesOf<V>(root: Option<Node<V>>): seq<Entry<V>> {
    if root.None? then [] else Elems(root.value)
  }

  /** A B-tree of order `m`: no root, or a valid one. */
  ghost predicate ValidRoot<V>(root: Option<Node<V>>, m: int) {
    m >= 3 && (root.Some? ==> ValidTree(root.value, m))
  }

  /**
   * `insert(_:forKey:)` keeps a valid tree, stores `v` under `k` and keeps every other
   * entry, and grows the tree by at most one level, and then with a one-key root.
   */
  lemma InsertSound<V>(root: Option<Node<V>>, m: int, k: int, v: V)
    requires ValidRoot(root, m)
    ensures var r := InsertKey(Intended, root, m, k, v);
      r.Some? && ValidTree(r.value, m) && Elems(r.value) == Put(EntriesOf(root), k, v)
    ensures root.Some? ==> var r := InsertKey(Intended, root, m, k, v).value;
      Height(r) == Height(root.value) || (Height(r) == Height(root.value) + 1 && |r.entries| == 1)
  {
    if root.None? {
      var r := Node([Entry(k, v)], []);
      assert Uniform(r, 0);
      assert Sorted(Elems(r)) by {
        assert KeysOf(Elems(r)) == [k];
      }
    } else {
      var t := root.value;
      var (p, i) := FindForUpdate(Intended, t, k);
      var n := At(t, p);
      if i < |n.entries| && n.entries[i].key == k {
        InsertHit(t, m, k, v);
      } else {
        InsertMiss(t, m, k, v);
      }
    }
  }

  /** A present key: its entry gets the new value, and nothing else changes. */
  lemma InsertHit<V>(t: Node<V>, m: int, k: int, v: V)
    requires m >= 3 && ValidTree(t, m)
    requires var (p, i) := FindForUpdate(Intended, t, k); i < |At(t, p).entries| && At(t, p).entries[i].key == k
    ensures var (p, i) := FindForUpdate(Intended, t, k); var n := At(t, p);
      var r := Replace(t, p, n.(entries := n.entries[i := Entry(k, v)]));
      ValidTree(r, m) && Elems(r) == Put(Elems(t), k, v) && Height(r) == Height(t)
  {
    var (p, i) := FindForUpdate(Intended, t, k);
    var n := At(t, p);
    var x := n.(entries := n.entries[i := Entry(k, v)]);
    HitElems(t, k, v);
    PutGet(Elems(t), k, v, k);
    SameShape(t, m, p, x);
  }

  /** Overwriting the value at the entry `findForUpdate` finds is `Put` on the in-order entries. */
  lemma HitElems<V>(t: Node<V>, k: int, v: V)
    requires Shaped(t) && Sorted(Elems(t))
    requires var (p, i) := FindForUpdate(Intended, t, k); i < |At(t, p).entries| && At(t, p).entries[i].key == k
    ensures var (p, i) := FindForUpdate(Intended, t, k); var n := At(t, p);
      Elems(Replace(t, p, n.(entries := n.entries[i := Entry(k, v)]))) == Put(Elems(t), k, v)
  {
    var (p, i) := FindForUpdate(Intended, t, k);
    var n := At(t, p);
    DescentSound(t, k);
    var x := n.(entries := n.entries[i := Entry(k, v)]);
    var a, b := Pre(t, p) + Left(n, i), Right(n, i) + Post(t, p);
    assert Elems(Replace(t, p, x)) == a + [Entry(k, v)] + b by {
      ElemsReplace(t, p, x);
      EntrySet(n, i, Entry(k, v));
      Regroup(Pre(t, p), Left(n, i), Entry(k, v), Right(n, i), Post(t, p));
    }
    assert Put(Elems(t), k, v) == a + [Entry(k, v)] + b by {
      SortedAround(a, n.entries[i], b);
      PutOld(a, n.entries[i], b, v);
    }
  }

  /** A node with the children and the number of entries of the node at `p` keeps the tree's shape and bounds. */
  lemma SameShape<V>(t: Node<V>, m: int, p: seq<int>, x: Node<V>)
    requires TreeArgs(t, m) && ValidPath(t, p)
    requires x.children == At(t, p).children && |x.entries| == |At(t, p).entries|
    ensures Shaped(Replace(t, p, x)) && Uniform(Replace(t, p, x), Height(Replace(t, p, x)))
    ensures Fits(Replace(t, p, x), m, 1, None) && Height(Replace(t, p, x)) == Height(t)
  {
    NodeAtFits(t, m, p);
    SameCounts(At(t, p), x, m, Height(t) - |p|);
    ReplaceFits(t, m, p, x);
    UniformHeight(Replace(t, p, x), Height(t));
  }

  /** A node with the children and the number of entries of `n` has its height and bounds. */
  lemma SameCounts<V>(n: Node<V>, x: Node<V>, m: int, h: nat)
    requires x.children == n.children && |x.entries| == |n.entries|
    requires Uniform(n, h) && KidsFit(n, m)
    ensures Uniform(x, h) && KidsFit(x, m)
  {
  }

  /** A missing key: a new entry at the leaf where it belongs, with the splits that follow. */
  lemma InsertMiss<V>(t: Node<V>, m: int, k: int, v: V)
    requires m >= 3 && ValidTree(t, m)
    requires var (p, i) := FindForUpdate(Intended, t, k); !(i < |At(t, p).entries| && At(t, p).entries[i].key == k)
    ensures var (p, i) := FindForUpdate(Intended, t, k);
      Shaped(t) && ValidPath(t, p) && i <= |At(t, p).entries| && |At(t, p).children| == 0 &&
      var r := InsertUp(Intended, t, m, p, None, Entry(k, v), i);
      ValidTree(r, m) && Elems(r) == Put(Elems(t), k, v) &&
      (Height(r) == Height(t) || (Height(r) == Height(t) + 1 && |r.entries| == 1))
  {
    var (p, i) := FindForUpdate(Intended, t, k);
    var e := Entry(k, v);
    MissElems(t, k, v);
    PutGet(Elems(t), k, v, k);
    LeafDepth(t, m, p);
    InsertUpSound(t, m, p, None, e, i, Put(Elems(t), k, v), -1);
    var r := InsertUp(Intended, t, m, p, None, e, i);
    if Uniform(r, Height(t)) {
      UniformHeight(r, Height(t));
    } else {
      UniformHeight(r, Height(t) + 1);
    }
  }

  /** Adding the entry at the leaf slot `findForUpdate` finds is `Put` on the in-order entries. */
  lemma MissElems<V>(t: Node<V>, k: int, v: V)
    requires Shaped(t) && Sorted(Elems(t))
    requires var (p, i) := FindForUpdate(Intended, t, k); !(i < |At(t, p).entries| && At(t, p).entries[i].key == k)
    ensures var (p, i) := FindForUpdate(Intended, t, k); var n := At(t, p);
      |n.children| == 0 && Elems(Replace(t, p, InsertInto(n, None, Entry(k, v), i))) == Put(Elems(t), k, v)
  {
    var (p, i) := FindForUpdate(Intended, t, k);
    var n, e := At(t, p), Entry(k, v);
    var a, b := Pre(t, p) + n.entries[..i], n.entries[i..] + Post(t, p);
    DescentSound(t, k);
    assert Elems(t) == a + b by {
      ElemsAt(t, p);
      assert n.entries == n.entries[..i] + n.entries[i..];
      Regroup2(Pre(t, p), n.entries[..i], n.entries[i..], Post(t, p));
    }
    PutNew(a, b, k, v);
    assert Elems(Replace(t, p, InsertInto(n, None, e, i))) == a + [e] + b by {
      ElemsReplace(t, p, InsertInto(n, None, e, i));
      Regroup(Pre(t, p), n.entries[..i], e, n.entries[i..], Post(t, p));
    }
  }

  /** A leaf of a fitting tree lies at the tree's height. */
  lemma LeafDepth<V>(t: Node<V>, m: int, p: seq<int>)
    requires TreeArgs(t, m) && ValidPath(t, p) && |At(t, p).children| == 0
    ensures |p| == Height(t)
  {
    NodeAtFits(t, m, p);
  }

  // ---------------------------------------------------------------------------
  // The search as written, on a tree

  /** `find` as written reports a key or stops the program: it never returns `nil`. */
  lemma {:induction false} AsWrittenNeverMisses<V>(n: Node<V>, k: int)
    requires Shaped(n)
    ensures AsWrittenFindIn(n, k) != Returns(None)
    ensures AsWrittenFindIn(n, k).Returns? ==> AsWrittenFindIn(n, k).value.value.key == k
    decreases n
  {
    var (hasKey, i) := Point(AsWritten, KeysOf(n.entries), k);
    if !hasKey && i < |n.children| {
      AsWrittenNeverMisses(n.children[i], k);
    }
  }

  /** On a leaf, `find` as written stops the program for every key the leaf does not hold. */
  lemma AsWrittenLeafMissTraps<V>(n: Node<V>, k: int)
    requires |n.children| == 0 && forall j :: 0 <= j < |n.entries| ==> n.entries[j].key != k
    ensures AsWrittenFindIn(n, k) == Traps
  {
    assert forall j :: 0 <= j < |n.entries| ==> KeysOf(n.entries)[j] != k;
  }

  /** The tree the inserts of 8, 9, 10, 11 and 15 build with `m = 3`: root [9, 11] over [8], [10], [15]. */
  function ExampleTree(): Node<int> {
    Node([Entry(9, 0), Entry(11, 0)], [Node([Entry(8, 0)], []), Node([Entry(10, 0)], []), Node([Entry(15, 0)], [])])
  }

  /** The in-order entries of a two-key node over three leaves. */
  lemma TwoKeyElems<V>(e1: Entry<V>, e2: Entry<V>, a: Node<V>, b: Node<V>, c: Node<V>)
    requires |a.children| == 0 && |b.children| == 0 && |c.children| == 0
    ensures Elems(Node([e1, e2], [a, b, c])) == a.entries + [e1] + b.entries + [e2] + c.entries
  {
    var n := Node([e1, e2], [a, b, c]);
    assert Sep(n, 0) == [e1] && Sep(n, 1) == [e2] && Sep(n, 2) == [];
    assert Span(n, 3) == [];
    assert Span(n, 2) == c.entries + [] + [];
    assert Span(n, 1) == b.entries + [e2] + (c.entries + [] + []);
    assert Span(n, 0) == a.entries + [e1] + (b.entries + [e2] + (c.entries + [] + []));
  }

  /** The example is a valid B-tree of order 3 that stores key 9. */
  lemma ExampleValid()
    ensures ValidTree(ExampleTree(), 3) && Get(Elems(ExampleTree()), 9) == Some(0)
  {
    var t := ExampleTree();
    assert Uniform(t, 1);
    UniformHeight(t, 1);
    assert Elems(t) == [Entry(8, 0), Entry(9, 0), Entry(10, 0), Entry(11, 0), Entry(15, 0)] by {
      TwoKeyElems(Entry(9, 0), Entry(11, 0), t.children[0], t.children[1], t.children[2]);
    }
    assert KeysOf(Elems(t)) == [8, 9, 10, 11, 15];
  }

  /**
   * On that tree `find(key: 9)` as written stops the program: the root reports 9
   * absent and sends it to leaf [8], which has no child at index 1. The intended search finds it.
   */
  lemma AsWrittenFindTraps()
    ensures AsWrittenFindIn(ExampleTree(), 9) == Traps
    ensures FindIn(ExampleTree(), 9) == Some(Slice(9, 0))
  {
    var t := ExampleTree();
    ExampleValid();
    AsWrittenShortArrays([9, 11], 9);
    AsWrittenShortArrays([8], 9);
    assert KeysOf(t.entries) == [9, 11] && KeysOf(t.children[0].entries) == [8];
    FindSound(t, 3, 9);
  }

  /**
   * On that tree `insert(0, forKey: 9)` as written puts a second 9 into leaf [8], so the
   * in-order keys are no longer strictly increasing.
   */
  lemma AsWrittenInsertDuplicates()
    ensures var r := InsertKey(AsWritten, Some(ExampleTree()), 3, 9, 0);
      r.Some? && |r.value.children| == 3 && KeysOf(r.value.children[0].entries) == [8, 9] && !Sorted(Elems(r.value))
  {
    var x := Node([Entry(8, 0), Entry(9, 0)], []);
    var r := Node([Entry(9, 0), Entry(11, 0)], [x, Node([Entry(10, 0)], []), Node([Entry(15, 0)], [])]);
    AsWrittenInsertStep();
    TwoKeyElems(Entry(9, 0), Entry(11, 0), x, Node([Entry(10, 0)], []), Node([Entry(15, 0)], []));
    assert KeysOf(Elems(r))[1] == KeysOf(Elems(r))[2];
  }

  /** The descent of `insert` as written on the example: to slot 1 of leaf [8], which takes the key without a split. */
  lemma AsWrittenInsertStep()
    ensures InsertKey(AsWritten, Some(ExampleTree()), 3, 9, 0) ==
      Some(Node([Entry(9, 0), Entry(11, 0)], [Node([Entry(8, 0), Entry(9, 0)], []), Node([Entry(10, 0)], []), Node([Entry(15, 0)], [])]))
  {
    var t := ExampleTree();
    AsWrittenShortArrays([9, 11], 9);
    AsWrittenShortArrays([8], 9);
    assert KeysOf(t.entries) == [9, 11] && KeysOf(t.children[0].entries) == [8];
    assert Point(AsWritten, [9, 11], 9) == (false, 0) && Point(AsWritten, [8], 9) == (false, 1);
    assert FindForUpdate(AsWritten, t.children[0], 9) == ([], 1);
    assert FindForUpdate(AsWritten, t, 9) == ([0], 1) by {
      assert [0] + [] == [0];
    }
    var x := Node([Entry(8, 0), Entry(9, 0)], []);
    assert At(t, [0]) == t.children[0] && Replace(t, [0], x) == t.(children := t.children[0 := x]) by {
      assert [0][1..] == [];
    }
    assert InsertInto(At(t, [0]), None, Entry(9, 0), 1) == x;
    assert InsertUp(AsWritten, t, 3, [0], None, Entry(9, 0), 1) == Replace(t, [0], x);
    assert InsertKey(AsWritten, Some(t), 3, 9, 0) == Some(Replace(t, [0], x)) by {
      var (p, i) := FindForUpdate(AsWritten, t, 9);
      assert p == [0] && i == 1 && !(i < |At(t, p).entries|);
    }
    assert t.children[0 := x] == [x, Node([Entry(10, 0)], []), Node([Entry(15, 0)], [])];
  }

  /** With the intended search, the same insert overwrites the value stored under 9. */
  lemma IntendedInsertOverwrites()
    ensures var r := InsertKey(Intended, Some(ExampleTree()), 3, 9, 0);
      r.Some? && Elems(r.value) == Elems(ExampleTree())
  {
    var t := ExampleTree();
    ExampleValid();
    InsertSound(Some(t), 3, 9, 0);
    assert Elems(t) == [Entry(8, 0)] + [Entry(9, 0)] + [Entry(10, 0), Entry(11, 0), Entry(15, 0)];
    PutOld([Entry(8, 0)], Entry(9, 0), [Entry(10, 0), Entry(11, 0), Entry(15, 0)], 0);
  }
}
