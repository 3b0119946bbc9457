/**
 * The shape of a level-order container, as values. Node `i` of a shape `s` has the
 * slot list `s[i]`: each slot names a child node or is `Nil`. In a well-formed shape
 * a child always has a larger index than its parent, so a shape has no cycles and
 * node 0 is the root. `BinaryTree`, `GeneralTree` and `GenericTree` each keep a
 * ghost shape that mirrors their heap nodes; their `depth`, `breadth`, `levels`
 * and append operations are proved against the functions here.
 */
module LevelOrder {

  import opened Wrappers

  const Nil: int := -1

  type Shape = seq<seq<int>>

  function Max(x: int, y: int): int { if x < y then y else x }

  function Min(x: int, y: int): int { if x < y then x else y }

  /** Every slot is empty or names a node with a larger index. */
  ghost predicate WellFormed(s: Shape) {
    forall i, j :: 0 <= i < |s| && 0 <= j < |s[i]| ==> s[i][j] == Nil || i < s[i][j] < |s|
  }

  /** Every entry of `level` is a node index in `[lo, hi)`. */
  ghost predicate Within(level: seq<int>, lo: int, hi: int) {
    |level| == 0 || (lo <= level[0] < hi && Within(level[1..], lo, hi))
  }

  /** The head of a non-empty level lies within its bounds. */
  lemma WithinFrom(level: seq<int>, lo: int, hi: int)
    requires Within(level, lo, hi) && |level| > 0
    ensures lo <= level[0] < hi
  {
  }

  lemma {:induction false} WithinAt(level: seq<int>, lo: int, hi: int, k: int)
    requires Within(level, lo, hi) && 0 <= k < |level|
    ensures lo <= level[k] < hi
  {
    if k > 0 {
      WithinAt(level[1..], lo, hi, k - 1);
    }
  }

  /** The occupied slots, in order: the children a level walk visits. */
  ghost function Present(cs: seq<int>): (r: seq<int>)
    ensures |r| <= |cs|
  {
    if |cs| == 0 then [] else (if cs[0] == Nil then [] else [cs[0]]) + Present(cs[1..])
  }

  lemma {:induction false} WithinConcat(a: seq<int>, b: seq<int>, lo: int, hi: int)
    requires Within(a, lo, hi) && Within(b, lo, hi)
    ensures Within(a + b, lo, hi)
  {
    if a == [] {
      assert a + b == b;
    } else {
      assert (a + b)[1..] == a[1..] + b;
      WithinConcat(a[1..], b, lo, hi);
    }
  }

  /** The occupied slots keep the bounds of the slots. */
  lemma {:induction false} PresentWithin(cs: seq<int>, lo: int, hi: int)
    requires forall j :: 0 <= j < |cs| ==> cs[j] == Nil || lo <= cs[j] < hi
    ensures Within(Present(cs), lo, hi)
  {
    if cs != [] {
      PresentWithin(cs[1..], lo, hi);
      WithinConcat(if cs[0] == Nil then [] else [cs[0]], Present(cs[1..]), lo, hi);
    }
  }

  lemma {:induction false} PresentSnoc(cs: seq<int>, x: int)
    ensures Present(cs + [x]) == Present(cs) + (if x == Nil then [] else [x])
  {
    if cs == [] {
      assert cs + [x] == [x];
    } else {
      assert (cs + [x])[1..] == cs[1..] + [x];
      PresentSnoc(cs[1..], x);
    }
  }

  /** Scanning one more slot adds it to the occupied ones when it is occupied. */
  lemma PresentPrefix(cs: seq<int>, j: nat)
    requires j < |cs|
    ensures Present(cs[..j + 1]) == Present(cs[..j]) + (if cs[j] == Nil then [] else [cs[j]])
  {
    assert cs[..j + 1] == cs[..j] + [cs[j]];
    PresentSnoc(cs[..j], cs[j]);
  }

  /** The slot list of `x`, or none when `x` names no node. */
  ghost function Slots(s: Shape, x: int): seq<int> {
    if 0 <= x < |s| then s[x] else []
  }

  /** The next level: the occupied slots of every node of `level`, in order. */
  ghost function NextLevel(s: Shape, level: seq<int>): seq<int> {
    if |level| == 0 then [] else Present(Slots(s, level[0])) + NextLevel(s, level[1..])
  }

  lemma {:induction false} NextLevelSnoc(s: Shape, level: seq<int>, x: int)
    ensures NextLevel(s, level + [x]) == NextLevel(s, level) + Present(Slots(s, x))
  {
    if |level| == 0 {
      assert level + [x] == [x];
    } else {
      assert (level + [x])[1..] == level[1..] + [x];
      NextLevelSnoc(s, level[1..], x);
    }
  }

  /** Children lie strictly below their parents, so the next level is bounded away from `lo`. */
  lemma {:induction false} NextLevelAbove(s: Shape, level: seq<int>, lo: nat)
    requires WellFormed(s) && Within(level, lo, |s|)
    ensures Within(NextLevel(s, level), lo + 1, |s|)
  {
    if |level| > 0 {
      var x := level[0];
      NextLevelAbove(s, level[1..], lo);
      PresentWithin(s[x], lo + 1, |s|);
      WithinConcat(Present(s[x]), NextLevel(s, level[1..]), lo + 1, |s|);
    }
  }

  /** Level `d`: the root alone at level 0 (nothing for the empty shape), then each next level. */
  ghost function LevelAt(s: Shape, d: nat): seq<int> {
    if d == 0 then (if |s| == 0 then [] else [0]) else NextLevel(s, LevelAt(s, d - 1))
  }

  /** Level `d` of a well-formed shape holds nodes at indices `d` and above. */
  lemma {:induction false} LevelAtWithin(s: Shape, d: nat)
    requires WellFormed(s)
    ensures Within(LevelAt(s, d), d, |s|)
  {
    if d > 0 {
      LevelAtWithin(s, d - 1);
      NextLevelAbove(s, LevelAt(s, d - 1), d - 1);
    }
  }

  /**
   * The levels from `d` on, up to the first empty one. The walk also stops at `|s|`,
   * which a well-formed shape never reaches with a non-empty level (`LevelAtWithin`).
   */
  ghost function LevelsFrom(s: Shape, d: nat): seq<seq<int>>
    decreases |s| - d
  {
    if d >= |s| || |LevelAt(s, d)| == 0 then [] else [LevelAt(s, d)] + LevelsFrom(s, d + 1)
  }

  /** The levels of the whole shape, root level first; none for the empty shape. */
  ghost function LevelsOf(s: Shape): seq<seq<int>> {
    LevelsFrom(s, 0)
  }

  lemma ConsAt<X>(x: X, rest: seq<X>, k: nat)
    requires k < |rest|
    ensures ([x] + rest)[0] == x && ([x] + rest)[k + 1] == rest[k]
  {
  }

  lemma LevelsFromStep(s: Shape, d: nat)
    requires |LevelsFrom(s, d)| > 0
    ensures LevelsFrom(s, d) == [LevelAt(s, d)] + LevelsFrom(s, d + 1)
  {
  }

  lemma {:induction false} LevelsFromAt(s: Shape, d: nat, k: nat)
    requires k < |LevelsFrom(s, d)|
    ensures LevelsFrom(s, d)[k] == LevelAt(s, d + k)
    decreases k
  {
    LevelsFromStep(s, d);
    if k > 0 {
      LevelsFromAt(s, d + 1, k - 1);
      ConsAt(LevelAt(s, d), LevelsFrom(s, d + 1), k - 1);
    }
  }

  /** Entry `d` of the level list is level `d`. */
  lemma LevelsOfAt(s: Shape, d: nat)
    requires d < |LevelsOf(s)|
    ensures LevelsOf(s)[d] == LevelAt(s, d)
  {
    LevelsFromAt(s, 0, d);
  }

  /** The first `d + 1` levels are the first `d` and level `d`. */
  lemma LevelsOfPrefix(s: Shape, d: nat)
    requires d < |LevelsOf(s)|
    ensures LevelsOf(s)[..d + 1] == LevelsOf(s)[..d] + [LevelAt(s, d)]
  {
    LevelsOfAt(s, d);
  }

  /** The level below level `d` is the next level, or the levels end at `d`. */
  lemma LevelsStep(s: Shape, d: nat)
    requires WellFormed(s) && d < |LevelsOf(s)|
    ensures |NextLevel(s, LevelsOf(s)[d])| == 0 ==> LevelsOf(s)[..d + 1] == LevelsOf(s)
    ensures |NextLevel(s, LevelsOf(s)[d])| > 0 ==>
      d + 1 < |LevelsOf(s)| && LevelsOf(s)[..d + 2] == LevelsOf(s)[..d + 1] + [NextLevel(s, LevelsOf(s)[d])]
  {
    var e := d + 1;
    LevelsOfAt(s, d);
    LevelAtSucc(s, d);
    LevelAtEmpty(s, e);
    LevelCountIsDepth(s);
    if e < |LevelsOf(s)| {
      LevelsOfPrefix(s, e);
    }
  }

  /** The largest count among the levels (0 when there are none). */
  function MaxCount<X>(levels: seq<seq<X>>): (r: nat)
    ensures forall d :: 0 <= d < |levels| ==> |levels[d]| <= r
    ensures |levels| == 0 ==> r == 0
    ensures |levels| > 0 ==> exists d :: 0 <= d < |levels| && |levels[d]| == r
  {
    if |levels| == 0 then 0
    else
      var rest := MaxCount(levels[1..]);
      assert forall d :: 1 <= d < |levels| ==> levels[d] == levels[1..][d - 1];
      Max(|levels[0]|, rest)
  }

  /** Two level lists with the same counts have the same largest count. */
  lemma {:induction false} MaxCountByCounts<X, Y>(a: seq<seq<X>>, b: seq<seq<Y>>)
    requires |a| == |b| && forall d :: 0 <= d < |a| ==> |a[d]| == |b[d]|
    ensures MaxCount(a) == MaxCount(b)
  {
    if a != [] {
      MaxCountByCounts(a[1..], b[1..]);
    }
  }

  /** The breadth: the largest level, 0 for the empty shape. */
  ghost function Breadth(s: Shape): nat {
    MaxCount(LevelsOf(s))
  }

  /** The depth of node `i`: 1 + the largest depth among its occupied slots. */
  ghost function Depth(s: Shape, i: int): nat
    requires WellFormed(s) && 0 <= i < |s|
    decreases |s| - i, |s[i]| + 1
  {
    1 + SlotsDepth(s, i, 0)
  }

  /** The largest depth among the occupied slots `j..` of node `i`, 0 if there are none. */
  ghost function SlotsDepth(s: Shape, i: int, j: int): nat
    requires WellFormed(s) && 0 <= i < |s| && 0 <= j <= |s[i]|
    decreases |s| - i, |s[i]| - j
  {
    if j == |s[i]| then 0
    else Max(if s[i][j] == Nil then 0 else Depth(s, s[i][j]), SlotsDepth(s, i, j + 1))
  }

  /** The depth of the shape: 0 when empty, else the root's depth. */
  ghost function TreeDepth(s: Shape): nat
    requires WellFormed(s)
  {
    if |s| == 0 then 0 else Depth(s, 0)
  }

  /** The depth of `x` when it names a node, else 0. */
  ghost function NodeDepth(s: Shape, x: int): nat
    requires WellFormed(s)
  {
    if 0 <= x < |s| then Depth(s, x) else 0
  }

  /** The largest depth among the nodes of a level (0 for no nodes). */
  ghost function LevelDepth(s: Shape, level: seq<int>): nat
    requires WellFormed(s)
  {
    if |level| == 0 then 0 else Max(NodeDepth(s, level[0]), LevelDepth(s, level[1..]))
  }

  lemma {:induction false} LevelDepthConcat(s: Shape, a: seq<int>, b: seq<int>)
    requires WellFormed(s)
    ensures LevelDepth(s, a + b) == Max(LevelDepth(s, a), LevelDepth(s, b))
  {
    if a != [] {
      assert (a + b)[1..] == a[1..] + b;
      LevelDepthConcat(s, a[1..], b);
    } else {
      assert a + b == b;
    }
  }

  /** The slots `j..` of node `i` reach exactly as deep as their occupied entries. */
  lemma {:induction false} SlotsDepthIsLevelDepth(s: Shape, i: int, j: int)
    requires WellFormed(s) && 0 <= i < |s| && 0 <= j <= |s[i]|
    ensures SlotsDepth(s, i, j) == LevelDepth(s, Present(s[i][j..]))
    decreases |s[i]| - j
  {
    if j < |s[i]| {
      var cs := s[i][j..];
      SlotsDepthIsLevelDepth(s, i, j + 1);
      assert cs[1..] == s[i][j + 1..];
      var head := if cs[0] == Nil then [] else [cs[0]];
      assert Present(cs) == head + Present(s[i][j + 1..]);
      LevelDepthConcat(s, head, Present(s[i][j + 1..]));
    }
  }

  /** Going one level down loses exactly one unit of depth. */
  lemma {:induction false} LevelDepthStep(s: Shape, level: seq<int>, lo: nat)
    requires WellFormed(s) && Within(level, lo, |s|) && |level| > 0
    ensures LevelDepth(s, level) == 1 + LevelDepth(s, NextLevel(s, level))
  {
    var x := level[0];
    SlotsDepthIsLevelDepth(s, x, 0);
    assert s[x][0..] == s[x];
    var here := Present(s[x]);
    assert NodeDepth(s, x) == 1 + LevelDepth(s, here);
    if level[1..] == [] {
      assert NextLevel(s, level) == here + [];
      assert here + [] == here;
    } else {
      LevelDepthStep(s, level[1..], lo);
      LevelDepthConcat(s, here, NextLevel(s, level[1..]));
    }
  }

  /** A non-empty level of nodes reaches at least one level deep. */
  lemma LevelDepthPositive(s: Shape, level: seq<int>, lo: nat)
    requires WellFormed(s) && |level| > 0 && Within(level, lo, |s|)
    ensures LevelDepth(s, level) >= 1
  {
  }

  /** Level `d` reaches exactly as deep as the tree below depth `d`. */
  lemma {:induction false} LevelAtDepth(s: Shape, d: nat)
    requires WellFormed(s)
    ensures LevelDepth(s, LevelAt(s, d)) == Max(TreeDepth(s) - d, 0)
  {
    if d == 0 {
      if |s| > 0 {
        assert LevelAt(s, 0) == [0];
        assert [0][1..] == [];
      }
    } else {
      var above := LevelAt(s, d - 1);
      LevelAtDepth(s, d - 1);
      if |above| > 0 {
        LevelAtWithin(s, d - 1);
        WithinFrom(above, d - 1, |s|);
        LevelDepthStep(s, above, d - 1);
      }
    }
  }

  /** Level `d` is empty exactly when `d` is at least the depth. */
  lemma LevelAtEmpty(s: Shape, d: nat)
    requires WellFormed(s)
    ensures |LevelAt(s, d)| == 0 <==> d >= TreeDepth(s)
    ensures |LevelAt(s, d)| > 0 ==> d < |s|
  {
    var level := LevelAt(s, d);
    LevelAtDepth(s, d);
    LevelAtWithin(s, d);
    if |level| > 0 {
      WithinFrom(level, d, |s|);
      LevelDepthPositive(s, level, d);
    }
  }

  lemma {:induction false} LevelsFromCount(s: Shape, d: nat)
    requires WellFormed(s) && d <= TreeDepth(s)
    ensures |LevelsFrom(s, d)| == TreeDepth(s) - d
    decreases TreeDepth(s) - d
  {
    LevelAtEmpty(s, d);
    if d < TreeDepth(s) {
      LevelsFromCount(s, d + 1);
    }
  }

  /** The number of levels is the depth. */
  lemma LevelCountIsDepth(s: Shape)
    requires WellFormed(s)
    ensures |LevelsOf(s)| == TreeDepth(s)
  {
    LevelsFromCount(s, 0);
  }

  // The append target.

  /** A node can take a new child when it has no slots yet or has an empty slot. */
  predicate HasRoom(cs: seq<int>) {
    |cs| == 0 || Nil in cs
  }

  /** The first empty slot. */
  function FirstNil(cs: seq<int>): (r: nat)
    requires Nil in cs
    ensures r < |cs| && cs[r] == Nil && Nil !in cs[..r]
  {
    if cs[0] == Nil then 0
    else
      assert cs[1..] == cs[1..];
      var r := 1 + FirstNil(cs[1..]);
      assert cs[..r] == [cs[0]] + cs[1..][..r - 1];
      r
  }

  /** An empty slot with none before it is the first empty slot. */
  lemma FirstNilAt(cs: seq<int>, j: int)
    requires 0 <= j < |cs| && cs[j] == Nil && Nil !in cs[..j]
    ensures Nil in cs && FirstNil(cs) == j
  {
  }

  /** The slot list after `x` is attached: appended to no slots, else into the first empty slot. */
  function Fill(cs: seq<int>, x: int): (r: seq<int>)
    requires HasRoom(cs)
  {
    if |cs| == 0 then [x] else cs[FirstNil(cs) := x]
  }

  /** `n` empty slots: the slot list of a node that has no children yet. */
  function Blank(n: nat): (r: seq<int>)
    ensures |r| == n && forall j :: 0 <= j < n ==> r[j] == Nil
  {
    seq(n, _ => Nil)
  }

  /** `x` names a node that has room. */
  ghost predicate Open(s: Shape, x: int) {
    0 <= x < |s| && HasRoom(s[x])
  }

  /** The first node of `level` that has room. */
  ghost function FirstWithRoom(s: Shape, level: seq<int>): (r: Option<int>)
    ensures r.Some? ==> Open(s, r.value)
  {
    if |level| == 0 then None
    else if Open(s, level[0]) then Some(level[0])
    else FirstWithRoom(s, level[1..])
  }

  /** The first node with room, level by level from level `d`. */
  ghost function TargetFrom(s: Shape, d: nat): (r: Option<int>)
    ensures r.Some? ==> Open(s, r.value)
    decreases |s| - d
  {
    if d >= |s| then None
    else
      match FirstWithRoom(s, LevelAt(s, d))
      case Some(t) => Some(t)
      case None => TargetFrom(s, d + 1)
  }

  /** The node an append attaches to: the first one in level order with room. */
  ghost function Target(s: Shape): (r: Option<int>)
    ensures r.Some? ==> Open(s, r.value)
  {
    TargetFrom(s, 0)
  }

  /** The shape after `x = |s|` is attached to node `t`, the new node having slots `newSlots`. */
  ghost function AttachAt(s: Shape, t: int, newSlots: seq<int>): Shape
    requires Open(s, t)
  {
    s[t := Fill(s[t], |s|)] + [newSlots]
  }

  /**
   * The shape after appending a node whose own slots are `newSlots`: it becomes the root
   * of an empty shape, else the new last node, attached to the target.
   */
  ghost function Attach(s: Shape, newSlots: seq<int>): Shape {
    if |s| == 0 then [newSlots]
    else
      match Target(s)
      case Some(t) => AttachAt(s, t, newSlots)
      case None => s
  }

  lemma {:induction false} FirstWithRoomFound(s: Shape, level: seq<int>, k: int)
    requires 0 <= k < |level| && Open(s, level[k])
    ensures FirstWithRoom(s, level).Some?
  {
    if k > 0 && !Open(s, level[0]) {
      assert level[1..][k - 1] == level[k];
      FirstWithRoomFound(s, level[1..], k - 1);
    }
  }

  lemma {:induction false} TargetFromFound(s: Shape, d: nat, e: nat)
    requires d <= e < |s| && FirstWithRoom(s, LevelAt(s, e)).Some?
    ensures TargetFrom(s, d).Some?
    decreases e - d
  {
    if d < e && FirstWithRoom(s, LevelAt(s, d)).None? {
      TargetFromFound(s, d + 1, e);
    }
  }

  lemma LevelAtNext(s: Shape, d: nat)
    requires d > 0
    ensures LevelAt(s, d) == NextLevel(s, LevelAt(s, d - 1))
  {
  }

  /** While a search from level `d` succeeds, a hit on level `d` is its result. */
  lemma SearchHit(s: Shape, d: nat, level: seq<int>, t: int)
    requires TargetFrom(s, d).Some? && LevelAt(s, d) == level && FirstWithRoom(s, level) == Some(t)
    ensures TargetFrom(s, d) == Some(t)
  {
  }

  /** A hit on a level the search reaches is the target, and appending attaches there. */
  lemma AttachFound(s: Shape, d: nat, level: seq<int>, t: int, newSlots: seq<int>)
    requires Target(s).Some? && TargetFrom(s, d) == Target(s)
    requires LevelAt(s, d) == level && FirstWithRoom(s, level) == Some(t)
    ensures Target(s) == Some(t) && Open(s, t) && Attach(s, newSlots) == AttachAt(s, t, newSlots)
  {
    SearchHit(s, d, level, t);
  }

  /** While a search from level `d` succeeds, a miss on level `d` hands it to the next level. */
  lemma SearchMiss(s: Shape, d: nat, level: seq<int>)
    requires TargetFrom(s, d).Some? && LevelAt(s, d) == level && FirstWithRoom(s, level) == None
    ensures TargetFrom(s, d + 1) == TargetFrom(s, d) && LevelAt(s, d + 1) == NextLevel(s, level)
  {
  }

  lemma LevelAtSucc(s: Shape, d: nat)
    ensures LevelAt(s, d + 1) == NextLevel(s, LevelAt(s, d))
  {
  }

  lemma TargetFromHit(s: Shape, d: nat, level: seq<int>, t: int)
    requires d < |s| && LevelAt(s, d) == level && FirstWithRoom(s, level) == Some(t)
    ensures TargetFrom(s, d) == Some(t)
  {
  }

  /** A level with no room passes the search on to the next level. */
  lemma TargetFromMiss(s: Shape, d: nat, level: seq<int>)
    requires d < |s| && LevelAt(s, d) == level && FirstWithRoom(s, level) == None
    ensures TargetFrom(s, d) == TargetFrom(s, d + 1)
  {
  }

  /** Extending a level by `x` keeps an earlier find, else finds `x` when it has room. */
  lemma {:induction false} FirstWithRoomSnoc(s: Shape, level: seq<int>, x: int)
    ensures FirstWithRoom(s, level + [x]) ==
      if FirstWithRoom(s, level).Some? then FirstWithRoom(s, level)
      else if Open(s, x) then Some(x) else None
  {
    if |level| == 0 {
      assert level + [x] == [x];
    } else {
      assert (level + [x])[1..] == level[1..] + [x];
      FirstWithRoomSnoc(s, level[1..], x);
    }
  }

  /** A find in a prefix of a level is the find in the whole level. */
  lemma {:induction false} FirstWithRoomPrefix(s: Shape, level: seq<int>, k: nat)
    requires k <= |level| && FirstWithRoom(s, level[..k]).Some?
    ensures FirstWithRoom(s, level) == FirstWithRoom(s, level[..k])
  {
    if !Open(s, level[0]) {
      assert level[..k][1..] == level[1..][..k - 1];
      FirstWithRoomPrefix(s, level[1..], k - 1);
    }
  }

  /** Scanning one more node of a level adds its occupied slots to the next level. */
  lemma NextLevelPrefix(s: Shape, level: seq<int>, k: nat)
    requires k < |level|
    ensures NextLevel(s, level[..k + 1]) == NextLevel(s, level[..k]) + Present(Slots(s, level[k]))
  {
    assert level[..k + 1] == level[..k] + [level[k]];
    NextLevelSnoc(s, level[..k], level[k]);
  }

  /** Scanning one more node of a level with no room so far finds it when it has room. */
  lemma FirstWithRoomStep(s: Shape, level: seq<int>, k: nat)
    requires k < |level| && FirstWithRoom(s, level[..k]) == None
    ensures FirstWithRoom(s, level[..k + 1]) == if Open(s, level[k]) then Some(level[k]) else None
  {
    assert level[..k + 1] == level[..k] + [level[k]];
    FirstWithRoomSnoc(s, level[..k], level[k]);
  }

  /** A node none of whose slots is occupied has room. */
  lemma NoneOccupied(cs: seq<int>)
    requires |Present(cs)| == 0
    ensures HasRoom(cs)
  {
    if |cs| > 0 {
      assert cs[0] == Nil;
    }
  }

  /** A non-empty shape always has a target: the first node of its deepest level has no children. */
  lemma TargetExists(s: Shape)
    requires WellFormed(s) && |s| > 0
    ensures Target(s).Some?
  {
    var e := TreeDepth(s) - 1;
    LevelAtEmpty(s, e);
    LevelAtEmpty(s, e + 1);
    var last := LevelAt(s, e);
    LevelAtWithin(s, e);
    var x := last[0];
    assert 0 <= x < |s| by {
      WithinFrom(last, e, |s|);
    }
    assert NextLevel(s, last) == Present(s[x]) + NextLevel(s, last[1..]);
    NoneOccupied(s[x]);
    FirstWithRoomFound(s, last, 0);
    TargetFromFound(s, 0, e);
  }

  lemma AttachAtWellFormed(s: Shape, t: int, newSlots: seq<int>)
    requires WellFormed(s) && forall j :: 0 <= j < |newSlots| ==> newSlots[j] == Nil
    requires Open(s, t)
    ensures WellFormed(AttachAt(s, t, newSlots))
  {
    var r := AttachAt(s, t, newSlots);
    forall i, j | 0 <= i < |r| && 0 <= j < |r[i]|
      ensures r[i][j] == Nil || i < r[i][j] < |r|
    {
      if i == |s| {
        assert r[i] == newSlots;
      } else if i == t {
        if |s[t]| > 0 && j != FirstNil(s[t]) {
          assert r[i][j] == s[t][j];
        }
      } else {
        assert r[i] == s[i];
      }
    }
  }

  /** Attaching to node `t`: only `t` changes, taking the new node into its slots, and the new node comes last. */
  lemma AttachAtSlots(s: Shape, t: int, newSlots: seq<int>)
    requires WellFormed(s) && Open(s, t) && forall j :: 0 <= j < |newSlots| ==> newSlots[j] == Nil
    ensures WellFormed(AttachAt(s, t, newSlots))
    ensures |AttachAt(s, t, newSlots)| == |s| + 1 && AttachAt(s, t, newSlots)[|s|] == newSlots
    ensures AttachAt(s, t, newSlots)[t] == Fill(s[t], |s|)
    ensures forall i :: 0 <= i < |s| && i != t ==> AttachAt(s, t, newSlots)[i] == s[i]
  {
    AttachAtWellFormed(s, t, newSlots);
  }

  /** Appending keeps a shape well formed and adds the new node last. */
  lemma AttachWellFormed(s: Shape, newSlots: seq<int>)
    requires WellFormed(s) && forall j :: 0 <= j < |newSlots| ==> newSlots[j] == Nil
    ensures WellFormed(Attach(s, newSlots))
    ensures |Attach(s, newSlots)| == |s| + 1 && Attach(s, newSlots)[|s|] == newSlots
  {
    if |s| > 0 {
      TargetExists(s);
      AttachAtWellFormed(s, Target(s).value, newSlots);
    }
  }

  /**
   * Appending changes no existing link: every node but the target keeps its slots, and
   * the target gets the new node in its first empty slot, or as its only child.
   */
  lemma AttachFillsOneSlot(s: Shape, newSlots: seq<int>)
    requires WellFormed(s) && |s| > 0
    ensures Target(s).Some? && var t := Target(s).value;
      (forall i :: 0 <= i < |s| && i != t ==> Attach(s, newSlots)[i] == s[i]) &&
      (|s[t]| == 0 ==> Attach(s, newSlots)[t] == [|s|]) &&
      (|s[t]| > 0 ==> (exists j :: (0 <= j < |s[t]| && s[t][j] == Nil && Nil !in s[t][..j] &&
        Attach(s, newSlots)[t] == s[t][j := |s|])))
  {
    TargetExists(s);
    var t := Target(s).value;
    var r := AttachAt(s, t, newSlots);
    assert Attach(s, newSlots) == r;
    if |s[t]| > 0 {
      var j := FirstNil(s[t]);
      assert r[t] == s[t][j := |s|];
    }
  }

  /** Appending in level order never gives a binary node a right child before a left one. */
  ghost predicate LeftBeforeRight(s: Shape) {
    forall i :: 0 <= i < |s| ==> |s[i]| == 2 && (s[i][0] == Nil ==> s[i][1] == Nil)
  }

  lemma AttachKeepsLeftBeforeRight(s: Shape)
    requires WellFormed(s) && LeftBeforeRight(s)
    ensures LeftBeforeRight(Attach(s, [Nil, Nil]))
  {
    if |s| > 0 {
      TargetExists(s);
      var t := Target(s).value;
      var r := AttachAt(s, t, [Nil, Nil]);
      assert Attach(s, [Nil, Nil]) == r;
      forall i | 0 <= i < |r|
        ensures |r[i]| == 2 && (r[i][0] == Nil ==> r[i][1] == Nil)
      {
        if i == t {
          assert FirstNil(s[t]) == (if s[t][0] == Nil then 0 else 1);
        } else if i < |s| {
          assert r[i] == s[i];
        }
      }
    }
  }

}
