/**
 * The unbalanced container over `GeneralNode`: the same level-order container as
 * `GenericTree`, whose adding operation is called `insert`. Each tree carries a ghost
 * mirror of its nodes (`nodes`, node 0 the root) and their slot lists (`kids`, one slot
 * per entry of the node's child array), and every operation is proved against the
 * shape functions of `LevelOrder`.
 */
module GeneralTrees {

  import opened Wrappers
  import opened LevelOrder
  import opened TreeNodes

  class GeneralTree<T> {
    var root: GeneralNode?<T>
    ghost var nodes: seq<GeneralNode<T>>
    ghost var kids: Shape

    /** The slot content `x` stands for `ref`. */
    ghost predicate Refers(x: int, ref: GeneralNode?<T>)
      reads this
    {
      SlotNames(nodes, x, ref)
    }

    /** The node list `refs` is the index list `level`, node for index. */
    ghost predicate Names(level: seq<int>, refs: seq<GeneralNode<T>>)
      reads this
    {
      |refs| == |level| && forall k :: 0 <= k < |level| ==> 0 <= level[k] < |nodes| && refs[k] == nodes[level[k]]
    }

    /** The mirror: distinct nodes, one well-formed slot list each, node 0 the root. */
    ghost predicate Mirrored()
      reads this
    {
      Mirror(nodes, kids, root)
    }

    /** The child array of node `i` is its slot list, entry for slot. */
    ghost predicate LinkedAt(i: int)
      reads this, if 0 <= i < |nodes| then {nodes[i]} else {}
    {
      0 <= i < |nodes| && i < |kids| && ChildrenNamed(nodes, kids[i], nodes[i].children)
    }

    /** The child array of every node is its slot list. */
    ghost predicate Linked()
      reads this, nodes
    {
      forall i :: 0 <= i < |nodes| ==> LinkedAt(i)
    }

    ghost predicate Valid()
      reads this, nodes
    {
      Mirrored() && Linked()
    }

    /** What `Valid` says of node `x`: its child array is its slot list. */
    lemma SlotsOf(x: int)
      requires Valid() && 0 <= x < |nodes|
      ensures LinkedAt(x) && |kids[x]| == |nodes[x].children|
      ensures forall j :: 0 <= j < |kids[x]| ==> Refers(kids[x][j], nodes[x].children[j])
    {
      assert LinkedAt(x);
    }

    /** Level `d` of `stack` is the index list `lv[d]`, level for level. */
    ghost predicate Stacked(lv: seq<seq<int>>, stack: seq<seq<GeneralNode<T>>>)
      reads this
    {
      |lv| == |stack| && forall d {:trigger stack[d]} :: 0 <= d < |stack| ==> Names(lv[d], stack[d])
    }

    lemma StackedSnoc(lv: seq<seq<int>>, stack: seq<seq<GeneralNode<T>>>, level: seq<int>, next: seq<GeneralNode<T>>)
      requires Stacked(lv, stack) && Names(level, next)
      ensures Stacked(lv + [level], stack + [next])
    {
      var lv', stack' := lv + [level], stack + [next];
      forall d | 0 <= d < |stack'|
        ensures Names(lv'[d], stack'[d])
      {
        if d < |stack| {
          assert lv'[d] == lv[d] && stack'[d] == stack[d];
        }
      }
    }

    /** One more level below `stack`: the end of the levels when it is empty. */
    lemma NextStacked(lv: seq<seq<int>>, stack: seq<seq<GeneralNode<T>>>, nextIdx: seq<int>, next: seq<GeneralNode<T>>)
      requires WellFormed(kids) && 0 < |lv| <= |LevelsOf(kids)| && lv == LevelsOf(kids)[..|lv|] && Stacked(lv, stack)
      requires nextIdx == NextLevel(kids, lv[|lv| - 1]) && Names(nextIdx, next)
      ensures |next| == 0 ==> lv == LevelsOf(kids)
      ensures |next| > 0 ==> |lv| < |LevelsOf(kids)| && lv + [nextIdx] == LevelsOf(kids)[..|lv| + 1]
      ensures |next| > 0 ==> Stacked(lv + [nextIdx], stack + [next])
    {
      var d := |lv| - 1;
      assert lv[d] == LevelsOf(kids)[d];
      LevelsStep(kids, d);
      if |next| > 0 {
        StackedSnoc(lv, stack, nextIdx, next);
      }
    }

    /** The root alone is the first level of a non-empty tree. */
    lemma RootLevel()
      requires Valid() && root != null
      ensures 0 < |LevelsOf(kids)| && LevelsOf(kids)[..1] == [[0]] && Stacked([[0]], [[root]])
    {
      LevelCountIsDepth(kids);
      LevelAtEmpty(kids, 0);
      LevelsOfPrefix(kids, 0);
    }

    lemma NamesConcat(a: seq<int>, ra: seq<GeneralNode<T>>, b: seq<int>, rb: seq<GeneralNode<T>>)
      requires Names(a, ra) && Names(b, rb)
      ensures Names(a + b, ra + rb)
    {
    }

    lemma NamesSnoc(level: seq<int>, refs: seq<GeneralNode<T>>, x: int, r: GeneralNode?<T>)
      requires Names(level, refs) && x != Nil && Refers(x, r)
      ensures r != null && Names(level + [x], refs + [r])
    {
    }

    constructor ()
      ensures Valid() && nodes == [] && kids == []
    {
      root := null;
      nodes := [];
      kids := [];
    }

    function IsEmpty(): (b: bool)
      reads this, nodes
      requires Valid()
      ensures b <==> |kids| == 0
    {
      root == null
    }

    /**
     * The depth below `node`, which slot content `x` names: 0 for no node, else one more
     * than the largest depth among its children, taken left to right.
     */
    method DepthOf(node: GeneralNode?<T>, ghost x: int) returns (d: nat)
      requires Valid() && Refers(x, node)
      ensures d == NodeDepth(kids, x)
      decreases if x == Nil then 0 else |nodes| - x
    {
      if node == null {
        return 0;
      }
      SlotsOf(x);
      var deepest: nat := 0;
      for j := 0 to |node.children|
        invariant Max(deepest, SlotsDepth(kids, x, j)) == SlotsDepth(kids, x, 0)
      {
        var child := node.children[j];
        if child != null {
          var c := DepthOf(child, kids[x][j]);
          deepest := Max(deepest, c);
        }
      }
      d := deepest + 1;
    }

    method Depth() returns (d: nat)
      requires Valid()
      ensures d == TreeDepth(kids)
    {
      d := DepthOf(root, if root == null then Nil else 0);
    }

    /** The children of `node`, node `x`, in array order, the empty entries skipped. */
    method ChildrenOf(node: GeneralNode<T>, ghost x: int) returns (cs: seq<GeneralNode<T>>, ghost ci: seq<int>)
      requires Valid() && 0 <= x < |nodes| && node == nodes[x]
      ensures ci == Present(Slots(kids, x)) && Names(ci, cs)
    {
      SlotsOf(x);
      cs, ci := [], [];
      for j := 0 to |node.children|
        invariant ci == Present(kids[x][..j]) && Names(ci, cs)
      {
        var child := node.children[j];
        PresentPrefix(kids[x], j);
        if child != null {
          NamesSnoc(ci, cs, kids[x][j], child);
          cs, ci := cs + [child], ci + [kids[x][j]];
        }
      }
      assert kids[x][..|node.children|] == kids[x];
    }

    /** The children of the nodes of `level`, in level order. */
    method NextLevelOf(level: seq<GeneralNode<T>>, ghost idx: seq<int>) returns (next: seq<GeneralNode<T>>, ghost nextIdx: seq<int>)
      requires Valid() && Names(idx, level)
      ensures nextIdx == NextLevel(kids, idx) && Names(nextIdx, next)
    {
      next, nextIdx := [], [];
      for k := 0 to |level|
        invariant nextIdx == NextLevel(kids, idx[..k]) && Names(nextIdx, next)
      {
        var cs;
        ghost var ci;
        cs, ci := ChildrenOf(level[k], idx[k]);
        NextLevelPrefix(kids, idx, k);
        NamesConcat(nextIdx, next, ci, cs);
        next, nextIdx := next + cs, nextIdx + ci;
      }
      assert idx[..|level|] == idx;
    }

    /**
     * Pushes the levels below the last one of `stack` until the next one would be empty;
     * `stack` holds the first `|lv|` levels.
     */
    method ExtendLevels(stack: seq<seq<GeneralNode<T>>>, ghost lv: seq<seq<int>>) returns (r: seq<seq<GeneralNode<T>>>)
      requires Valid() && |lv| <= |LevelsOf(kids)| && lv == LevelsOf(kids)[..|lv|] && Stacked(lv, stack)
      ensures |stack| == 0 ==> r == []
      ensures |stack| > 0 ==> Stacked(LevelsOf(kids), r)
      decreases |LevelsOf(kids)| - |lv|
    {
      if |stack| == 0 {
        return stack;
      }
      ghost var d := |stack| - 1;
      LevelsOfAt(kids, d);
      var deepest := stack[|stack| - 1];
      var next;
      ghost var nextIdx;
      next, nextIdx := NextLevelOf(deepest, lv[d]);
      NextStacked(lv, stack, nextIdx, next);
      if |next| == 0 {
        return stack;
      }
      r := ExtendLevels(stack + [next], lv + [nextIdx]);
    }

    /** The levels from the root down, each in array order. */
    method Levels() returns (r: seq<seq<GeneralNode<T>>>)
      requires Valid()
      ensures Stacked(LevelsOf(kids), r)
    {
      LevelCountIsDepth(kids);
      if root == null {
        return [];
      }
      RootLevel();
      r := ExtendLevels([[root]], [[0]]);
    }

    /** The number of nodes on the widest level; 0 for the empty tree. */
    method Breadth() returns (b: nat)
      requires Valid()
      ensures b == LevelOrder.Breadth(kids)
    {
      if root == null {
        LevelCountIsDepth(kids);
        return 0;
      }
      RootLevel();
      var stack := ExtendLevels([[root]], [[0]]);
      b := MaxCount(stack);
      MaxCountByCounts(stack, LevelsOf(kids));
    }

    /**
     * Inserts `node` in level order: it becomes the root of an empty tree, else it goes
     * to the first node in level order that has room, as its only child when that node
     * has an empty child array, else into its first empty entry.
     */
    method Insert(node: GeneralNode<T>)
      requires Valid() && node !in nodes && AllNull(node.children)
      modifies this, nodes`children
      ensures Valid() && nodes == old(nodes) + [node]
      ensures kids == Attach(old(kids), Blank(|node.children|))
    {
      if root == null {
        BlankNamed([node], node.children);
        root := node;
        nodes, kids := [node], [Blank(|node.children|)];
        assert LinkedAt(0);
        return;
      }
      TargetExists(kids);
      InsertFrom(node, 1, [root], 0, kids);
    }

    /**
     * One node of the insert scan, node `x`: whether it has room and, when its array is
     * not empty, the first empty entry; when it has no room, its children in order.
     */
    method ScanNode(node: GeneralNode<T>, ghost x: int) returns (room: bool, slot: int, cs: seq<GeneralNode<T>>, ghost ci: seq<int>)
      requires Valid() && 0 <= x < |nodes| && node == nodes[x]
      ensures room <==> Open(kids, x)
      ensures room && |kids[x]| > 0 ==> slot == FirstNil(kids[x])
      ensures !room ==> ci == Present(kids[x]) && Names(ci, cs)
    {
      SlotsOf(x);
      cs, ci := [], [];
      if |node.children| == 0 {
        return true, 0, cs, ci;
      }
      for j := 0 to |node.children|
        invariant Nil !in kids[x][..j] && ci == Present(kids[x][..j]) && Names(ci, cs)
      {
        var child := node.children[j];
        if child == null {
          FirstNilAt(kids[x], j);
          return true, j, cs, ci;
        }
        PresentPrefix(kids[x], j);
        NamesSnoc(ci, cs, kids[x][j], child);
        assert kids[x][..j + 1] == kids[x][..j] + [kids[x][j]];
        cs, ci := cs + [child], ci + [kids[x][j]];
      }
      assert kids[x][..|node.children|] == kids[x];
      room, slot := false, 0;
    }

    /**
     * One pass over `level`, the nodes `idx`: the first of them with room and where the
     * new node goes in it, or, when none has room, the next level.
     */
    method ScanLevel(level: seq<GeneralNode<T>>, ghost idx: seq<int>) returns (open: GeneralNode?<T>, ghost x: int, slot: int, next: seq<GeneralNode<T>>)
      requires Valid() && Names(idx, level)
      ensures open != null ==> FirstWithRoom(kids, idx) == Some(x) && 0 <= x < |nodes| && open == nodes[x]
      ensures open != null && |kids[x]| > 0 ==> slot == FirstNil(kids[x])
      ensures open == null ==> FirstWithRoom(kids, idx) == None && Names(NextLevel(kids, idx), next)
    {
      next := [];
      ghost var nextIdx: seq<int> := [];
      open, x, slot := null, Nil, 0;
      for k := 0 to |level|
        invariant nextIdx == NextLevel(kids, idx[..k]) && Names(nextIdx, next)
        invariant FirstWithRoom(kids, idx[..k]) == None
      {
        FirstWithRoomStep(kids, idx, k);
        var room, at, cs;
        ghost var ci;
        room, at, cs, ci := ScanNode(level[k], idx[k]);
        if room {
          FirstWithRoomPrefix(kids, idx, k + 1);
          return level[k], idx[k], at, next;
        }
        NextLevelPrefix(kids, idx, k);
        NamesConcat(nextIdx, next, ci, cs);
        next, nextIdx := next + cs, nextIdx + ci;
      }
      assert idx[..|level|] == idx;
    }

    /**
     * The scan of level `lvl` of the insert search: the target and its free entry when
     * the level holds it, else the nodes of the next level, from which the search goes on.
     */
    method ScanForTarget(level: seq<GeneralNode<T>>, ghost lvl: nat, ghost s: Shape, ghost newSlots: seq<int>)
      returns (open: GeneralNode?<T>, ghost x: int, slot: int, next: seq<GeneralNode<T>>)
      requires Valid() && kids == s && Names(LevelAt(s, lvl), level)
      requires Target(s).Some? && TargetFrom(s, lvl) == Target(s)
      ensures open != null ==> 0 <= x < |nodes| && open == nodes[x] && Open(s, x)
      ensures open != null ==> (|s[x]| > 0 ==> slot == FirstNil(s[x])) && Attach(s, newSlots) == AttachAt(s, x, newSlots)
      ensures open == null ==> lvl < |s| && TargetFrom(s, lvl + 1) == Target(s) && Names(LevelAt(s, lvl + 1), next)
    {
      ghost var idx := LevelAt(s, lvl);
      open, x, slot, next := ScanLevel(level, idx);
      if open != null {
        AttachFound(s, lvl, idx, x, newSlots);
      } else {
        SearchMiss(s, lvl, idx);
      }
    }

    /**
     * Searches level `depth - 1`, whose nodes are `level`, for a node with room, then the
     * levels below it; `s` names the shape the search runs on.
     */
    method InsertFrom(newNode: GeneralNode<T>, depth: int, level: seq<GeneralNode<T>>, ghost lvl: nat, ghost s: Shape)
      requires Valid() && newNode !in nodes && AllNull(newNode.children)
      requires kids == s && Names(LevelAt(s, lvl), level)
      requires Target(s).Some? && TargetFrom(s, lvl) == Target(s)
      modifies this, nodes`children
      ensures Valid() && nodes == old(nodes) + [newNode]
      ensures kids == Attach(s, Blank(|newNode.children|))
      decreases |s| - lvl
    {
      var open, slot, next;
      ghost var x;
      open, x, slot, next := ScanForTarget(level, lvl, s, Blank(|newNode.children|));
      if open != null {
        LinkChild(open, x, slot, newNode);
        return;
      }
      InsertFrom(newNode, depth + 1, next, lvl + 1, s);
    }

    /**
     * Puts `newNode` into node `x`: appended to an empty child array, else written into
     * entry `slot`, the first empty one.
     */
    method LinkChild(node: GeneralNode<T>, ghost x: int, slot: int, newNode: GeneralNode<T>)
      requires Valid() && newNode !in nodes && AllNull(newNode.children)
      requires 0 <= x < |nodes| && node == nodes[x] && Open(kids, x)
      requires |kids[x]| > 0 ==> slot == FirstNil(kids[x])
      modifies this, node`children
      ensures Valid() && nodes == old(nodes) + [newNode]
      ensures kids == AttachAt(old(kids), x, Blank(|newNode.children|))
    {
      ghost var s, ns, refs := kids, nodes, node.children;
      ghost var newSlots := Blank(|newNode.children|);
      SlotsOf(x);
      AttachAtSlots(s, x, newSlots);
      MirrorAttach(ns, s, root, x, newNode, newSlots);
      FillNamed(ns, s[x], refs, newNode, slot);
      if |node.children| == 0 {
        node.Append(newNode);
        assert node.children == [newNode];
      } else {
        node.SetChild(slot, newNode);
        assert node.children == refs[slot := newNode];
      }
      kids := AttachAt(s, x, newSlots);
      nodes := ns + [newNode];
      forall i | 0 <= i < |s| && i != x
        ensures LinkedAt(i)
      {
        assert old(LinkedAt(i));
        NamedSnoc(ns, s[i], nodes[i].children, newNode);
      }
      BlankNamed(nodes, newNode.children);
      assert LinkedAt(x) && LinkedAt(|s|);
    }
  }

  /** Every entry of a child array is empty. */
  ghost predicate AllNull<T>(refs: seq<GeneralNode?<T>>) {
    forall j :: 0 <= j < |refs| ==> refs[j] == null
  }

  /** Slot content `x` stands for `ref` in `nodes`: `Nil` for no node, else the index of `ref`. */
  ghost predicate SlotNames<T>(nodes: seq<GeneralNode<T>>, x: int, ref: GeneralNode?<T>) {
    if x == Nil then ref == null else 0 <= x < |nodes| && ref == nodes[x]
  }

  /** The child array `refs` is the slot list `slots`, entry for slot. */
  ghost predicate ChildrenNamed<T>(nodes: seq<GeneralNode<T>>, slots: seq<int>, refs: seq<GeneralNode?<T>>) {
    |slots| == |refs| && forall j :: 0 <= j < |slots| ==> SlotNames(nodes, slots[j], refs[j])
  }

  lemma NamedSnoc<T>(nodes: seq<GeneralNode<T>>, slots: seq<int>, refs: seq<GeneralNode?<T>>, n: GeneralNode<T>)
    requires ChildrenNamed(nodes, slots, refs)
    ensures ChildrenNamed(nodes + [n], slots, refs)
  {
    forall j | 0 <= j < |slots|
      ensures SlotNames(nodes + [n], slots[j], refs[j])
    {
      assert SlotNames(nodes, slots[j], refs[j]);
    }
  }

  /** An array of empty entries is a list of empty slots. */
  lemma BlankNamed<T>(nodes: seq<GeneralNode<T>>, refs: seq<GeneralNode?<T>>)
    requires AllNull(refs)
    ensures ChildrenNamed(nodes, Blank(|refs|), refs)
  {
  }

  /** Filling a node's slot list with `n`, the new last node, fills its child array the same way. */
  lemma FillNamed<T>(nodes: seq<GeneralNode<T>>, slots: seq<int>, refs: seq<GeneralNode?<T>>, n: GeneralNode<T>, slot: int)
    requires ChildrenNamed(nodes, slots, refs) && HasRoom(slots)
    requires |slots| > 0 ==> slot == FirstNil(slots)
    ensures ChildrenNamed(nodes + [n], Fill(slots, |nodes|), if |refs| == 0 then [n] else refs[slot := n])
  {
    NamedSnoc(nodes, slots, refs, n);
  }

  /** A mirror: distinct nodes, one well-formed slot list each, node 0 the root. */
  ghost predicate Mirror<T>(nodes: seq<GeneralNode<T>>, kids: Shape, root: GeneralNode?<T>) {
    |nodes| == |kids| && WellFormed(kids) &&
    (forall i, j :: 0 <= i < j < |nodes| ==> nodes[i] != nodes[j]) &&
    (if |nodes| == 0 then root == null else root == nodes[0])
  }

  /** Attaching a node not yet listed keeps the mirror. */
  lemma MirrorAttach<T>(nodes: seq<GeneralNode<T>>, kids: Shape, root: GeneralNode?<T>, x: int, n: GeneralNode<T>, newSlots: seq<int>)
    requires Mirror(nodes, kids, root) && n !in nodes && Open(kids, x)
    requires forall j :: 0 <= j < |newSlots| ==> newSlots[j] == Nil
    ensures Mirror(nodes + [n], AttachAt(kids, x, newSlots), root)
  {
    AttachAtWellFormed(kids, x, newSlots);
  }
}
