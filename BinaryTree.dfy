/**
 * The unbalanced binary container: nodes with `left` and `right` links, filled in
 * level order. Each tree carries a ghost mirror of its nodes (`nodes`, node 0 the root)
 * and their slot lists (`kids`, two slots per node), so that every operation is proved
 * against the shape functions of `LevelOrder`.
 */
module BinaryTrees {

  import opened Wrappers
  import opened LevelOrder

  class BinaryTreeNode<T> {
    var parent: BinaryTreeNode?<T>
    var left: BinaryTreeNode?<T>
    var right: BinaryTreeNode?<T>
    var value: T

    constructor (value: T)
      ensures this.value == value && parent == null && left == null && right == null
    {
      this.value := value;
      parent := null;
      left := null;
      right := null;
    }
  }

  class BinaryTree<T> {
    var root: BinaryTreeNode?<T>
    ghost var nodes: seq<BinaryTreeNode<T>>
    ghost var kids: Shape

    /** The slot content `x` stands for `ref`. */
    ghost predicate Refers(x: int, ref: BinaryTreeNode?<T>)
      reads this
    {
      SlotNames(nodes, x, ref)
    }

    /** The node list `refs` is the index list `level`, node for index. */
    ghost predicate Names(level: seq<int>, refs: seq<BinaryTreeNode<T>>)
      reads this
    {
      |refs| == |level| && forall k :: 0 <= k < |level| ==> 0 <= level[k] < |nodes| && refs[k] == nodes[level[k]]
    }

    /** The mirror: distinct nodes, one well-formed two-slot list each, node 0 the root. */
    ghost predicate Mirrored()
      reads this
    {
      Mirror(nodes, kids, root)
    }

    /** The links of node `i` are its two slots. */
    ghost predicate LinkedAt(i: int)
      reads this, if 0 <= i < |nodes| then {nodes[i]} else {}
    {
      0 <= i < |nodes| && i < |kids| && |kids[i]| == 2 &&
      Refers(kids[i][0], nodes[i].left) && Refers(kids[i][1], nodes[i].right)
    }

    /** The links of every node are its two slots. */
    ghost predicate Linked()
      reads this, nodes
    {
      forall i :: 0 <= i < |nodes| ==> LinkedAt(i)
    }

    ghost predicate Valid()
      reads this, nodes
    {
      Mirrored() && Linked()
    }

    /** What `Valid` says of node `x`: its two slots are its two links. */
    lemma SlotsOf(x: int)
      requires Valid() && 0 <= x < |nodes|
      ensures LinkedAt(x) && kids[x] == [kids[x][0], kids[x][1]]
      ensures Refers(kids[x][0], nodes[x].left) && Refers(kids[x][1], nodes[x].right)
      ensures HasRoom(kids[x]) <==> kids[x][0] == Nil || kids[x][1] == Nil
      ensures Present(Slots(kids, x)) == (if kids[x][0] == Nil then [] else [kids[x][0]]) + (if kids[x][1] == Nil then [] else [kids[x][1]])
    {
      assert LinkedAt(x);
      PresentPair(kids[x][0], kids[x][1]);
    }

    /** Level `d` of `stack` is the index list `lv[d]`, level for level. */
    ghost predicate Stacked(lv: seq<seq<int>>, stack: seq<seq<BinaryTreeNode<T>>>)
      reads this
    {
      |lv| == |stack| && forall d {:trigger stack[d]} :: 0 <= d < |stack| ==> Names(lv[d], stack[d])
    }

    lemma StackedSnoc(lv: seq<seq<int>>, stack: seq<seq<BinaryTreeNode<T>>>, level: seq<int>, next: seq<BinaryTreeNode<T>>)
      requires Stacked(lv, stack) && Names(level, next)
      ensures Stacked(lv + [level], stack + [next])
    {
      var lv', stack' := lv + [level], stack + [next];
      forall d | 0 <= d < |stack'|
        ensures Names(lv'[d], stack'[d])
      {
        if d < |stack| {
          assert lv'[d] == lv[d] && stack'[d] == stack[d];
        }
      }
    }

    /** One more level below `stack`: the end of the levels when it is empty. */
    lemma NextStacked(lv: seq<seq<int>>, stack: seq<seq<BinaryTreeNode<T>>>, nextIdx: seq<int>, next: seq<BinaryTreeNode<T>>)
      requires WellFormed(kids) && 0 < |lv| <= |LevelsOf(kids)| && lv == LevelsOf(kids)[..|lv|] && Stacked(lv, stack)
      requires nextIdx == NextLevel(kids, lv[|lv| - 1]) && Names(nextIdx, next)
      ensures |next| == 0 ==> lv == LevelsOf(kids)
      ensures |next| > 0 ==> |lv| < |LevelsOf(kids)| && lv + [nextIdx] == LevelsOf(kids)[..|lv| + 1]
      ensures |next| > 0 ==> Stacked(lv + [nextIdx], stack + [next])
    {
      var d := |lv| - 1;
      assert lv[d] == LevelsOf(kids)[d];
      LevelsStep(kids, d);
      if |next| > 0 {
        StackedSnoc(lv, stack, nextIdx, next);
      }
    }

    /** The root alone is the first level of a non-empty tree. */
    lemma RootLevel()
      requires Valid() && root != null
      ensures 0 < |LevelsOf(kids)| && LevelsOf(kids)[..1] == [[0]] && Stacked([[0]], [[root]])
    {
      LevelCountIsDepth(kids);
      LevelAtEmpty(kids, 0);
      LevelsOfPrefix(kids, 0);
    }

    lemma NamesConcat(a: seq<int>, ra: seq<BinaryTreeNode<T>>, b: seq<int>, rb: seq<BinaryTreeNode<T>>)
      requires Names(a, ra) && Names(b, rb)
      ensures Names(a + b, ra + rb)
    {
    }

    lemma NamesSnoc(level: seq<int>, refs: seq<BinaryTreeNode<T>>, x: int, r: BinaryTreeNode?<T>)
      requires Names(level, refs) && x != Nil && Refers(x, r)
      ensures r != null && Names(level + [x], refs + [r])
    {
    }

    constructor ()
      ensures Valid() && nodes == [] && kids == []
    {
      root := null;
      nodes := [];
      kids := [];
    }

    function IsEmpty(): (b: bool)
      reads this, nodes
      requires Valid()
      ensures b <==> |kids| == 0
    {
      root == null
    }

    /** The depth below `node`, which slot content `x` names: 0 for no node. */
    method DepthOf(node: BinaryTreeNode?<T>, ghost x: int) returns (d: nat)
      requires Valid() && Refers(x, node)
      ensures d == NodeDepth(kids, x)
      decreases if x == Nil then 0 else |nodes| - x
    {
      if node == null {
        return 0;
      }
      SlotsOf(x);
      var l := DepthOf(node.left, kids[x][0]);
      var r := DepthOf(node.right, kids[x][1]);
      d := Max(l, r) + 1;
      TwoSlotDepth(kids, x);
    }

    method Depth() returns (d: nat)
      requires Valid()
      ensures d == TreeDepth(kids)
    {
      d := DepthOf(root, if root == null then Nil else 0);
    }

    /** The children of `node`, node `x`, left before right. */
    method ChildrenOf(node: BinaryTreeNode<T>, ghost x: int) returns (cs: seq<BinaryTreeNode<T>>, ghost ci: seq<int>)
      requires Valid() && 0 <= x < |nodes| && node == nodes[x]
      ensures ci == Present(Slots(kids, x)) && Names(ci, cs)
    {
      SlotsOf(x);
      cs, ci := [], [];
      if node.left != null {
        NamesSnoc(ci, cs, kids[x][0], node.left);
        cs, ci := cs + [node.left], ci + [kids[x][0]];
      }
      if node.right != null {
        NamesSnoc(ci, cs, kids[x][1], node.right);
        cs, ci := cs + [node.right], ci + [kids[x][1]];
      }
    }

    /** The children of the nodes of `level`, left before right, in level order. */
    method NextLevelOf(level: seq<BinaryTreeNode<T>>, ghost idx: seq<int>) returns (next: seq<BinaryTreeNode<T>>, ghost nextIdx: seq<int>)
      requires Valid() && Names(idx, level)
      ensures nextIdx == NextLevel(kids, idx) && Names(nextIdx, next)
    {
      next, nextIdx := [], [];
      for k := 0 to |level|
        invariant nextIdx == NextLevel(kids, idx[..k]) && Names(nextIdx, next)
      {
        var cs;
        ghost var ci;
        cs, ci := ChildrenOf(level[k], idx[k]);
        NextLevelPrefix(kids, idx, k);
        NamesConcat(nextIdx, next, ci, cs);
        next, nextIdx := next + cs, nextIdx + ci;
      }
      assert idx[..|level|] == idx;
    }

    /**
     * Pushes the levels below the last one of `stack` until the next one would be empty;
     * `stack` holds the first `|lv|` levels.
     */
    method ExtendLevels(stack: seq<seq<BinaryTreeNode<T>>>, ghost lv: seq<seq<int>>) returns (r: seq<seq<BinaryTreeNode<T>>>)
      requires Valid() && |lv| <= |LevelsOf(kids)| && lv == LevelsOf(kids)[..|lv|] && Stacked(lv, stack)
      ensures |stack| == 0 ==> r == []
      ensures |stack| > 0 ==> Stacked(LevelsOf(kids), r)
      decreases |LevelsOf(kids)| - |lv|
    {
      if |stack| == 0 {
        return stack;
      }
      ghost var d := |stack| - 1;
      LevelsOfAt(kids, d);
      var deepest := stack[|stack| - 1];
      var next;
      ghost var nextIdx;
      next, nextIdx := NextLevelOf(deepest, lv[d]);
      NextStacked(lv, stack, nextIdx, next);
      if |next| == 0 {
        return stack;
      }
      r := ExtendLevels(stack + [next], lv + [nextIdx]);
    }

    /** The levels from the root down, each in left-to-right order. */
    method Levels() returns (r: seq<seq<BinaryTreeNode<T>>>)
      requires Valid()
      ensures Stacked(LevelsOf(kids), r)
    {
      LevelCountIsDepth(kids);
      if root == null {
        return [];
      }
      RootLevel();
      r := ExtendLevels([[root]], [[0]]);
    }

    /** The number of nodes on the widest level; 0 for the empty tree. */
    method Breadth() returns (b: nat)
      requires Valid()
      ensures b == LevelOrder.Breadth(kids)
    {
      if root == null {
        LevelCountIsDepth(kids);
        return 0;
      }
      RootLevel();
      var stack := ExtendLevels([[root]], [[0]]);
      b := MaxCount(stack);
      MaxCountByCounts(stack, LevelsOf(kids));
    }

    /**
     * Appends `node` in level order: it becomes the root of an empty tree, else the left
     * (or, when that is taken, the right) child of the first node in level order that
     * lacks one.
     */
    method Append(node: BinaryTreeNode<T>)
      requires Valid() && node !in nodes && node.left == null && node.right == null
      modifies this, nodes`left, nodes`right
      ensures Valid() && nodes == old(nodes) + [node]
      ensures kids == Attach(old(kids), [Nil, Nil])
    {
      if root == null {
        root := node;
        nodes, kids := [node], [[Nil, Nil]];
        return;
      }
      TargetExists(kids);
      AppendFrom(node, 1, [root], 0, kids);
    }

    /**
     * One pass over `level`, the nodes `idx`: the first of them with a free slot,
     * or, when none has one, their children, which make up the next level.
     */
    method ScanLevel(level: seq<BinaryTreeNode<T>>, ghost idx: seq<int>) returns (open: BinaryTreeNode?<T>, ghost x: int, next: seq<BinaryTreeNode<T>>)
      requires Valid() && Names(idx, level)
      ensures open != null ==> FirstWithRoom(kids, idx) == Some(x) && 0 <= x < |nodes| && open == nodes[x]
      ensures open == null ==> FirstWithRoom(kids, idx) == None && Names(NextLevel(kids, idx), next)
    {
      next := [];
      ghost var nextIdx: seq<int> := [];
      open, x := null, Nil;
      for k := 0 to |level|
        invariant nextIdx == NextLevel(kids, idx[..k]) && Names(nextIdx, next)
        invariant FirstWithRoom(kids, idx[..k]) == None
      {
        var node := level[k];
        FirstWithRoomStep(kids, idx, k);
        SlotsOf(idx[k]);
        if node.left == null || node.right == null {
          FirstWithRoomPrefix(kids, idx, k + 1);
          return node, idx[k], next;
        }
        var cs;
        ghost var ci;
        cs, ci := ChildrenOf(node, idx[k]);
        NextLevelPrefix(kids, idx, k);
        NamesConcat(nextIdx, next, ci, cs);
        next, nextIdx := next + cs, nextIdx + ci;
      }
      assert idx[..|level|] == idx;
    }

    /**
     * The scan of level `lvl` of the append search: the target when the level holds it,
     * else the nodes of the next level, from which the search goes on.
     */
    method ScanForTarget(level: seq<BinaryTreeNode<T>>, ghost lvl: nat, ghost s: Shape) returns (open: BinaryTreeNode?<T>, ghost x: int, next: seq<BinaryTreeNode<T>>)
      requires Valid() && kids == s && Names(LevelAt(s, lvl), level)
      requires Target(s).Some? && TargetFrom(s, lvl) == Target(s)
      ensures open != null ==> 0 <= x < |nodes| && open == nodes[x] && Open(s, x)
      ensures open != null ==> Attach(s, [Nil, Nil]) == AttachAt(s, x, [Nil, Nil])
      ensures open == null ==> lvl < |s| && TargetFrom(s, lvl + 1) == Target(s) && Names(LevelAt(s, lvl + 1), next)
    {
      ghost var idx := LevelAt(s, lvl);
      open, x, next := ScanLevel(level, idx);
      if open != null {
        AttachFound(s, lvl, idx, x, [Nil, Nil]);
      } else {
        SearchMiss(s, lvl, idx);
      }
    }

    /**
     * Searches level `depth - 1`, whose nodes are `level`, for a free slot, then the levels
     * below it; `s` names the shape the search runs on.
     */
    method AppendFrom(newNode: BinaryTreeNode<T>, depth: int, level: seq<BinaryTreeNode<T>>, ghost lvl: nat, ghost s: Shape)
      requires Valid() && newNode !in nodes && newNode.left == null && newNode.right == null
      requires kids == s && Names(LevelAt(s, lvl), level)
      requires Target(s).Some? && TargetFrom(s, lvl) == Target(s)
      modifies this, nodes`left, nodes`right
      ensures Valid() && nodes == old(nodes) + [newNode]
      ensures kids == Attach(s, [Nil, Nil])
      decreases |s| - lvl
    {
      var open, next;
      ghost var x;
      open, x, next := ScanForTarget(level, lvl, s);
      if open != null {
        LinkChild(open, x, newNode);
        return;
      }
      AppendFrom(newNode, depth + 1, next, lvl + 1, s);
    }

    /** Puts `newNode` into the first free slot of `node`, node `x`. */
    method LinkChild(node: BinaryTreeNode<T>, ghost x: int, newNode: BinaryTreeNode<T>)
      requires Valid() && newNode !in nodes && newNode.left == null && newNode.right == null
      requires 0 <= x < |nodes| && node == nodes[x] && Open(kids, x)
      modifies this, node`left, node`right
      ensures Valid() && nodes == old(nodes) + [newNode]
      ensures kids == AttachAt(old(kids), x, [Nil, Nil])
    {
      SlotsOf(x);
      if node.left == null {
        LinkLeft(node, x, newNode);
      } else {
        LinkRight(node, x, newNode);
      }
    }

    /** `newNode` becomes the left child of `node`, node `x`. */
    method LinkLeft(node: BinaryTreeNode<T>, ghost x: int, newNode: BinaryTreeNode<T>)
      requires Valid() && newNode !in nodes && newNode.left == null && newNode.right == null
      requires 0 <= x < |nodes| && node == nodes[x] && Open(kids, x) && node.left == null
      modifies this, node`left
      ensures Valid() && nodes == old(nodes) + [newNode]
      ensures kids == AttachAt(old(kids), x, [Nil, Nil])
    {
      ghost var s, ns := kids, nodes;
      SlotsOf(x);
      AttachTwo(s, x, true);
      MirrorAttach(ns, s, root, x, newNode);
      node.left := newNode;
      kids := AttachAt(s, x, [Nil, Nil]);
      nodes := ns + [newNode];
      forall i | 0 <= i < |s| && i != x
        ensures LinkedAt(i)
      {
        assert old(LinkedAt(i));
        SlotNamesSnoc(ns, s[i][0], nodes[i].left, newNode);
        SlotNamesSnoc(ns, s[i][1], nodes[i].right, newNode);
      }
      SlotNamesSnoc(ns, s[x][1], nodes[x].right, newNode);
      assert LinkedAt(x) && LinkedAt(|s|);
    }

    /** `newNode` becomes the right child of `node`, node `x`. */
    method LinkRight(node: BinaryTreeNode<T>, ghost x: int, newNode: BinaryTreeNode<T>)
      requires Valid() && newNode !in nodes && newNode.left == null && newNode.right == null
      requires 0 <= x < |nodes| && node == nodes[x] && Open(kids, x) && node.left != null && node.right == null
      modifies this, node`right
      ensures Valid() && nodes == old(nodes) + [newNode]
      ensures kids == AttachAt(old(kids), x, [Nil, Nil])
    {
      ghost var s, ns := kids, nodes;
      SlotsOf(x);
      AttachTwo(s, x, false);
      MirrorAttach(ns, s, root, x, newNode);
      node.right := newNode;
      kids := AttachAt(s, x, [Nil, Nil]);
      nodes := ns + [newNode];
      forall i | 0 <= i < |s| && i != x
        ensures LinkedAt(i)
      {
        assert old(LinkedAt(i));
        SlotNamesSnoc(ns, s[i][0], nodes[i].left, newNode);
        SlotNamesSnoc(ns, s[i][1], nodes[i].right, newNode);
      }
      SlotNamesSnoc(ns, s[x][0], nodes[x].left, newNode);
      assert LinkedAt(x) && LinkedAt(|s|);
    }
  }

  /** Slot content `x` stands for `ref` in `nodes`: `Nil` for no node, else the index of `ref`. */
  ghost predicate SlotNames<T>(nodes: seq<BinaryTreeNode<T>>, x: int, ref: BinaryTreeNode?<T>) {
    if x == Nil then ref == null else 0 <= x < |nodes| && ref == nodes[x]
  }

  lemma SlotNamesSnoc<T>(nodes: seq<BinaryTreeNode<T>>, x: int, ref: BinaryTreeNode?<T>, n: BinaryTreeNode<T>)
    requires SlotNames(nodes, x, ref)
    ensures SlotNames(nodes + [n], x, ref)
  {
  }

  /** A mirror: distinct nodes, one well-formed slot list each, node 0 the root. */
  ghost predicate Mirror<T>(nodes: seq<BinaryTreeNode<T>>, kids: Shape, root: BinaryTreeNode?<T>) {
    |nodes| == |kids| && WellFormed(kids) &&
    (forall i, j :: 0 <= i < j < |nodes| ==> nodes[i] != nodes[j]) &&
    (if |nodes| == 0 then root == null else root == nodes[0])
  }

  /** Attaching a node not yet listed keeps the mirror. */
  lemma MirrorAttach<T>(nodes: seq<BinaryTreeNode<T>>, kids: Shape, root: BinaryTreeNode?<T>, x: int, n: BinaryTreeNode<T>)
    requires Mirror(nodes, kids, root) && n !in nodes && Open(kids, x)
    ensures Mirror(nodes + [n], AttachAt(kids, x, [Nil, Nil]), root)
  {
    AttachAtWellFormed(kids, x, [Nil, Nil]);
  }

  /** The occupied slots of a two-slot list, left before right. */
  lemma PresentPair(l: int, r: int)
    ensures Present([l, r]) == (if l == Nil then [] else [l]) + (if r == Nil then [] else [r])
  {
    PresentSnoc([l], r);
    PresentSnoc([], l);
    assert [l, r] == [l] + [r];
    assert [l] == [] + [l];
  }

  /**
   * Attaching to a two-slot node `x`: the new node goes left when that slot is free, else
   * right; the new node gets two free slots; every other node keeps its slots.
   */
  lemma AttachTwo(s: Shape, x: int, leftWasFree: bool)
    requires WellFormed(s) && Open(s, x) && |s[x]| == 2 && (leftWasFree <==> s[x][0] == Nil)
    ensures WellFormed(AttachAt(s, x, [Nil, Nil]))
    ensures |AttachAt(s, x, [Nil, Nil])| == |s| + 1 && AttachAt(s, x, [Nil, Nil])[|s|] == [Nil, Nil]
    ensures AttachAt(s, x, [Nil, Nil])[x] == if leftWasFree then [|s|, s[x][1]] else [s[x][0], |s|]
    ensures forall i :: 0 <= i < |s| && i != x ==> AttachAt(s, x, [Nil, Nil])[i] == s[i]
  {
    AttachAtWellFormed(s, x, [Nil, Nil]);
  }

  /** A node with two slots is one deeper than the deeper of its two children. */
  lemma TwoSlotDepth(s: Shape, x: int)
    requires WellFormed(s) && 0 <= x < |s| && |s[x]| == 2
    ensures Depth(s, x) == Max(NodeDepth(s, s[x][0]), NodeDepth(s, s[x][1])) + 1
  {
    assert SlotsDepth(s, x, 2) == 0;
    assert SlotsDepth(s, x, 1) == NodeDepth(s, s[x][1]);
    assert SlotsDepth(s, x, 0) == Max(NodeDepth(s, s[x][0]), NodeDepth(s, s[x][1]));
  }
}
