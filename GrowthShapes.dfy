/**
 * The shapes that repeated appends build. Appending only childless nodes to a
 * general tree gives a chain; appending binary nodes gives the complete binary
 * shape, filled level by level and left before right. Both are proved here for
 * any number of appends, with the depth, level sizes and breadth the containers'
 * tests expect.
 */
module GrowthShapes {

  import opened Wrappers
  import opened LevelOrder

  /** `n` appends of nodes with slots `newSlots`, starting from the empty shape. */
  ghost function Grown(n: nat, newSlots: seq<int>): (r: Shape)
    requires forall j :: 0 <= j < |newSlots| ==> newSlots[j] == Nil
    ensures WellFormed(r) && |r| == n
  {
    if n == 0 then []
    else
      var s := Grown(n - 1, newSlots);
      AttachWellFormed(s, newSlots);
      Attach(s, newSlots)
  }

  // Small unfoldings, kept apart so that the proofs using them stay cheap.

  lemma NextLevelOne(s: Shape, x: int)
    ensures NextLevel(s, [x]) == Present(Slots(s, x))
  {
    assert [x][1..] == [];
    assert Present(Slots(s, x)) + [] == Present(Slots(s, x));
  }

  lemma NextLevelCons(s: Shape, level: seq<int>)
    requires |level| > 0
    ensures NextLevel(s, level) == Present(Slots(s, level[0])) + NextLevel(s, level[1..])
  {
  }

  lemma FirstWithRoomOne(s: Shape, x: int)
    ensures FirstWithRoom(s, [x]) == if Open(s, x) then Some(x) else None
  {
    assert [x][1..] == [];
  }

  lemma TargetFromStep(s: Shape, d: nat)
    requires d < |s|
    ensures TargetFrom(s, d) == match FirstWithRoom(s, LevelAt(s, d))
      case Some(t) => Some(t)
      case None => TargetFrom(s, d + 1)
  {
  }

  /** The breadth of level lists whose levels all hold one node. */
  lemma MaxCountOnes(levels: seq<seq<int>>)
    requires |levels| > 0 && forall d :: 0 <= d < |levels| ==> |levels[d]| == 1
    ensures MaxCount(levels) == 1
  {
    assert |levels[0]| == 1;
  }

  // Chains.

  /** A chain of `n` nodes: node `i` has the single child `i + 1`, the last none. */
  ghost function Chain(n: nat): Shape {
    ChainFrom(n, 0)
  }

  /** Nodes `m..n` of the chain of `n` nodes. */
  ghost function ChainFrom(n: nat, m: nat): (r: Shape)
    ensures |r| == if m <= n then n - m else 0
    decreases n - m
  {
    if m >= n then [] else [if m + 1 < n then [m + 1] else []] + ChainFrom(n, m + 1)
  }

  lemma {:induction false} ChainFromAt(n: nat, m: nat, i: nat)
    requires m <= i < n
    ensures ChainFrom(n, m)[i - m] == if i + 1 < n then [i + 1] else []
    decreases i - m
  {
    if m < i {
      ChainFromAt(n, m + 1, i);
    }
  }

  lemma ChainAt(n: nat, i: nat)
    requires i < n
    ensures |Chain(n)| == n && Chain(n)[i] == if i + 1 < n then [i + 1] else []
  {
    ChainFromAt(n, 0, i);
  }

  lemma ChainWellFormed(n: nat)
    ensures WellFormed(Chain(n))
  {
    forall i, j | 0 <= i < |Chain(n)| && 0 <= j < |Chain(n)[i]|
      ensures Chain(n)[i][j] == Nil || i < Chain(n)[i][j] < |Chain(n)|
    {
      ChainAt(n, i);
    }
  }

  /** Level `d` of a chain of `n` nodes is the single node `d`, or nothing from `n` on. */
  lemma {:induction false} ChainLevel(n: nat, d: nat)
    ensures LevelAt(Chain(n), d) == if d < n then [d] else []
  {
    if d > 0 {
      ChainLevel(n, d - 1);
      if d - 1 < n {
        ChainNext(n, d - 1);
      } else {
        assert LevelAt(Chain(n), d) == NextLevel(Chain(n), []);
      }
    }
  }

  /** Below node `x` of a chain there is node `x + 1`, or nothing at the end. */
  lemma ChainNext(n: nat, x: nat)
    requires x < n
    ensures NextLevel(Chain(n), [x]) == if x + 1 < n then [x + 1] else []
  {
    NextLevelOne(Chain(n), x);
    ChainAt(n, x);
    if x + 1 < n {
      assert [x + 1][1..] == [];
      assert Present([x + 1]) == [x + 1] + Present([]);
    }
  }

  /** From level `d` on, only the last node of a chain has room. */
  lemma {:induction false} ChainTargetFrom(n: nat, d: nat)
    requires d < n
    ensures TargetFrom(Chain(n), d) == Some(n - 1)
    decreases n - d
  {
    var s := Chain(n);
    ChainLevel(n, d);
    ChainAt(n, d);
    FirstWithRoomOne(s, d);
    TargetFromStep(s, d);
    if d + 1 < n {
      ChainTargetFrom(n, d + 1);
    }
  }

  /** In a chain only the last node has room, so the next append extends the chain. */
  lemma {:induction false} AttachChain(n: nat)
    ensures Attach(Chain(n), []) == Chain(n + 1)
  {
    var s := Chain(n);
    if n > 0 {
      ChainTargetFrom(n, 0);
      var r := AttachAt(s, n - 1, []);
      assert Attach(s, []) == r;
      ChainAt(n + 1, 0);
      forall i | 0 <= i < n + 1
        ensures r[i] == Chain(n + 1)[i]
      {
        ChainAt(n + 1, i);
        if i < n {
          ChainAt(n, i);
        }
      }
    } else {
      ChainAt(1, 0);
    }
  }

  /** `n` appends of childless nodes give a chain: each node gets at most one child. */
  lemma {:induction false} GrownIsChain(n: nat)
    ensures Grown(n, []) == Chain(n)
  {
    if n > 0 {
      GrownIsChain(n - 1);
      AttachChain(n - 1);
    }
  }

  /** A chain of `n > 0` nodes is `n` deep: its level `n - 1` is the last one that is not empty. */
  lemma ChainDepth(n: nat)
    requires n > 0
    ensures WellFormed(Chain(n)) && TreeDepth(Chain(n)) == n
  {
    var s := Chain(n);
    ChainWellFormed(n);
    assert |LevelAt(s, n)| == 0 by {
      ChainLevel(n, n);
    }
    assert |LevelAt(s, n - 1)| == 1 by {
      ChainLevel(n, n - 1);
    }
    LevelAtEmpty(s, n);
    LevelAtEmpty(s, n - 1);
  }

  /** A chain of `n > 0` nodes has depth `n`, `n` levels of one node each, and breadth 1. */
  lemma ChainShape(n: nat)
    requires n > 0
    ensures WellFormed(Chain(n))
    ensures TreeDepth(Chain(n)) == n && |LevelsOf(Chain(n))| == n && Breadth(Chain(n)) == 1
    ensures forall d :: 0 <= d < n ==> LevelsOf(Chain(n))[d] == [d]
  {
    var s := Chain(n);
    ChainDepth(n);
    LevelCountIsDepth(s);
    var levels := LevelsOf(s);
    forall d | 0 <= d < n
      ensures levels[d] == [d]
    {
      LevelsOfAt(s, d);
      ChainLevel(n, d);
    }
    MaxCountOnes(levels);
  }

  /** `n > 0` appends to an empty general tree: depth `n`, breadth 1, level `d` is node `d`. */
  lemma ChainAppends(n: nat)
    requires n > 0
    ensures var s := Grown(n, []);
      TreeDepth(s) == n && |LevelsOf(s)| == n && Breadth(s) == 1 &&
      forall d :: 0 <= d < n ==> LevelsOf(s)[d] == [d]
  {
    GrownIsChain(n);
    ChainShape(n);
  }

  // Complete binary shapes.

  /** The indices `a` up to but excluding `b`. */
  ghost function Range(a: int, b: int): (r: seq<int>)
    requires a <= b
    ensures |r| == b - a
    decreases b - a
  {
    if a == b then [] else [a] + Range(a + 1, b)
  }

  lemma {:induction false} RangeConcat(a: int, b: int, c: int)
    requires a <= b <= c
    ensures Range(a, b) + Range(b, c) == Range(a, c)
    decreases b - a
  {
    if a < b {
      RangeConcat(a + 1, b, c);
      assert [a] + Range(a + 1, b) + Range(b, c) == [a] + (Range(a + 1, b) + Range(b, c));
    } else {
      assert Range(a, b) + Range(b, c) == Range(b, c);
    }
  }

  lemma RangeCons(a: int, b: int)
    requires a < b
    ensures |Range(a, b)| > 0 && Range(a, b)[0] == a && Range(a, b)[1..] == Range(a + 1, b)
  {
  }

  ghost function Slot(x: int, n: nat): int { if x < n then x else Nil }

  /** The complete binary shape of `n` nodes: node `i` has the children `2i + 1` and `2i + 2` when they exist. */
  ghost function Complete(n: nat): Shape {
    CompleteFrom(n, 0)
  }

  /** Nodes `m..n` of the complete binary shape of `n` nodes. */
  ghost function CompleteFrom(n: nat, m: nat): (r: Shape)
    ensures |r| == if m <= n then n - m else 0
    decreases n - m
  {
    if m >= n then [] else [Children(m, n)] + CompleteFrom(n, m + 1)
  }

  /** The child slots of node `i` of the complete binary shape of `n` nodes. */
  ghost function Children(i: nat, n: nat): seq<int> {
    [Slot(2 * i + 1, n), Slot(2 * i + 2, n)]
  }

  lemma {:induction false} CompleteFromAt(n: nat, m: nat, i: nat)
    requires m <= i < n
    ensures CompleteFrom(n, m)[i - m] == Children(i, n)
    decreases i - m
  {
    var rest := CompleteFrom(n, m + 1);
    assert CompleteFrom(n, m) == [Children(m, n)] + rest;
    if m < i {
      CompleteFromAt(n, m + 1, i);
      assert CompleteFrom(n, m)[i - m] == rest[i - (m + 1)];
    }
  }

  lemma CompleteAt(n: nat, i: nat)
    requires i < n
    ensures |Complete(n)| == n && Complete(n)[i] == [Slot(2 * i + 1, n), Slot(2 * i + 2, n)]
  {
    CompleteFromAt(n, 0, i);
  }

  lemma CompleteWellFormed(n: nat)
    ensures WellFormed(Complete(n))
  {
    forall i, j | 0 <= i < |Complete(n)| && 0 <= j < |Complete(n)[i]|
      ensures Complete(n)[i][j] == Nil || i < Complete(n)[i][j] < |Complete(n)|
    {
      CompleteAt(n, i);
    }
  }

  /** The children of node `a` of a complete shape are the run `2a + 1 .. 2a + 3`, cut at `n`. */
  lemma CompleteChildren(n: nat, a: nat)
    requires a < n
    ensures Present(Slots(Complete(n), a)) == Range(Min(2 * a + 1, n), Min(2 * a + 3, n))
  {
    CompleteAt(n, a);
    var x, y := Slot(2 * a + 1, n), Slot(2 * a + 2, n);
    PresentSnoc([x], y);
    assert [x] + [y] == [x, y];
    assert [x][1..] == [];
    assert Present([x]) == (if x == Nil then [] else [x]) + Present([]);
  }

  /** The next level of a run of consecutive nodes is again a run of consecutive nodes. */
  lemma {:induction false} CompleteNextLevel(n: nat, a: nat, b: nat)
    requires a <= b <= n
    ensures NextLevel(Complete(n), Range(a, b)) == Range(Min(2 * a + 1, n), Min(2 * b + 1, n))
    decreases b - a
  {
    var s := Complete(n);
    if a < b {
      RangeCons(a, b);
      NextLevelCons(s, Range(a, b));
      CompleteNextLevel(n, a + 1, b);
      CompleteChildren(n, a);
      RangeConcat(Min(2 * a + 1, n), Min(2 * a + 3, n), Min(2 * b + 1, n));
    } else {
      assert Range(a, b) == [];
    }
  }

  function Pow2(d: nat): (r: nat)
    ensures r >= d + 1
  {
    if d == 0 then 1 else 2 * Pow2(d - 1)
  }

  lemma {:induction false} Pow2Monotone(d: nat, e: nat)
    requires d <= e
    ensures Pow2(d) <= Pow2(e)
    decreases e - d
  {
    if d < e {
      Pow2Monotone(d, e - 1);
    }
  }

  /** Doubling a run bound and cutting at `n` does not depend on cutting first. */
  lemma DoubleCut(n: nat, x: int)
    requires x >= 0
    ensures Min(2 * Min(x, n) + 1, n) == Min(2 * x + 1, n)
  {
  }

  /** The next level of the run `x .. y` cut at `n` is the run `2x + 1 .. 2y + 1` cut at `n`. */
  lemma CompleteNextRun(n: nat, x: nat, y: nat, x2: nat, y2: nat)
    requires x <= y && x2 == 2 * x + 1 && y2 == 2 * y + 1
    ensures NextLevel(Complete(n), Range(Min(x, n), Min(y, n))) == Range(Min(x2, n), Min(y2, n))
  {
    CompleteNextLevel(n, Min(x, n), Min(y, n));
    DoubleCut(n, x);
    DoubleCut(n, y);
  }

  lemma Pow2Step(d: nat)
    requires d > 0
    ensures Pow2(d) == 2 * Pow2(d - 1)
  {
  }

  lemma CompleteRoot(n: nat)
    ensures LevelAt(Complete(n), 0) == Range(0, Min(1, n))
  {
    if n > 0 {
      assert Range(0, 1) == [0] + Range(1, 1);
    }
  }

  /** The run `p - 1 .. 2p - 1` cut at `n`: level `d` of a complete shape when `p` is `2^d`. */
  ghost function Run(n: nat, p: nat): seq<int>
    requires p > 0
  {
    Range(Min(p - 1, n), Min(2 * p - 1, n))
  }

  lemma CompleteLevelStep(n: nat, p: nat)
    requires p > 0
    ensures NextLevel(Complete(n), Run(n, p)) == Run(n, 2 * p)
  {
    var x, y, z := p - 1, 2 * p - 1, 4 * p - 1;
    assert Run(n, p) == Range(Min(x, n), Min(y, n));
    assert Run(n, 2 * p) == Range(Min(y, n), Min(z, n));
    CompleteNextRun(n, x, y, y, z);
  }

  /** Level `d` of a complete shape is the run `2^d - 1 .. 2 * 2^d - 1`, cut at `n`. */
  lemma {:induction false} CompleteLevel(n: nat, d: nat)
    ensures LevelAt(Complete(n), d) == Run(n, Pow2(d))
  {
    if d == 0 {
      CompleteRoot(n);
    } else {
      CompleteLevel(n, d - 1);
      LevelAtNext(Complete(n), d);
      Pow2Step(d);
      CompleteLevelStep(n, Pow2(d - 1));
    }
  }

  /** Every node before `(n - 1) / 2` has two children; that node has a free slot. */
  lemma CompleteRoom(n: nat, i: nat)
    requires i < n
    ensures Open(Complete(n), i) <==> i >= (n - 1) / 2
  {
    CompleteAt(n, i);
  }

  /** In a run with no room before `t`, the first node with room is `t`. */
  lemma {:induction false} FirstWithRoomRange(s: Shape, a: int, b: int, t: int)
    requires a <= t < b && Open(s, t)
    requires forall i :: a <= i < t ==> !Open(s, i)
    ensures FirstWithRoom(s, Range(a, b)) == Some(t)
    decreases t - a
  {
    RangeCons(a, b);
    if a < t {
      FirstWithRoomRange(s, a + 1, b, t);
    }
  }

  lemma {:induction false} FirstWithRoomNone(s: Shape, a: int, b: int)
    requires a <= b
    requires forall i :: a <= i < b ==> !Open(s, i)
    ensures FirstWithRoom(s, Range(a, b)) == None
    decreases b - a
  {
    if a < b {
      RangeCons(a, b);
      FirstWithRoomNone(s, a + 1, b);
    } else {
      assert Range(a, b) == [];
    }
  }

  /** The nodes before `(n - 1) / 2` have no room. */
  lemma CompleteFull(n: nat, a: int, b: int)
    requires 0 <= a && b <= (n - 1) / 2
    ensures forall i :: a <= i < b ==> !Open(Complete(n), i)
  {
    forall i | a <= i < b
      ensures !Open(Complete(n), i)
    {
      CompleteRoom(n, i);
    }
  }

  /** A run that reaches past node `(n - 1) / 2` finds that node first. */
  lemma CompleteRunFound(n: nat, p: nat)
    requires n > 0 && p > 0 && p - 1 <= (n - 1) / 2 < 2 * p - 1
    ensures FirstWithRoom(Complete(n), Run(n, p)) == Some((n - 1) / 2)
  {
    var t := (n - 1) / 2;
    CompleteFull(n, p - 1, t);
    CompleteRoom(n, t);
    FirstWithRoomRange(Complete(n), p - 1, Min(2 * p - 1, n), t);
  }

  /** A run that ends at or before node `(n - 1) / 2` has no node with room. */
  lemma CompleteRunNone(n: nat, p: nat)
    requires n > 0 && p > 0 && 2 * p - 1 <= (n - 1) / 2
    ensures FirstWithRoom(Complete(n), Run(n, p)) == None
  {
    CompleteFull(n, p - 1, 2 * p - 1);
    FirstWithRoomNone(Complete(n), p - 1, 2 * p - 1);
  }

  /** From any level that starts at or before `(n - 1) / 2`, the target is that node. */
  lemma {:induction false} CompleteTargetFrom(n: nat, d: nat)
    requires n > 0 && Pow2(d) - 1 <= (n - 1) / 2
    ensures TargetFrom(Complete(n), d) == Some((n - 1) / 2)
    decreases n - d
  {
    var s, p := Complete(n), Pow2(d);
    assert d < |s| && LevelAt(s, d) == Run(n, p) by {
      CompleteLevel(n, d);
    }
    if (n - 1) / 2 < 2 * p - 1 {
      CompleteRunFound(n, p);
      TargetFromHit(s, d, Run(n, p), (n - 1) / 2);
    } else {
      assert TargetFrom(s, d) == TargetFrom(s, d + 1) by {
        CompleteRunNone(n, p);
        TargetFromMiss(s, d, Run(n, p));
      }
      assert Pow2(d + 1) - 1 <= (n - 1) / 2 by {
        Pow2Step(d + 1);
      }
      CompleteTargetFrom(n, d + 1);
    }
  }

  /** The target of a complete shape of `n > 0` nodes is its node `(n - 1) / 2`. */
  lemma CompleteTarget(n: nat)
    requires n > 0
    ensures Target(Complete(n)) == Some((n - 1) / 2)
  {
    CompleteTargetFrom(n, 0);
  }

  /** Filling the first free slot of node `t`, the parent of node `n`, gives the complete shape of `n + 1` nodes. */
  lemma CompleteGrows(n: nat, t: nat)
    requires n > 0 && (2 * t + 1 == n || 2 * t + 2 == n)
    ensures t < n && Open(Complete(n), t)
    ensures AttachAt(Complete(n), t, [Nil, Nil]) == Complete(n + 1)
  {
    var s := Complete(n);
    CompleteAt(n, t);
    var r := AttachAt(s, t, [Nil, Nil]);
    forall i | 0 <= i < n + 1
      ensures r[i] == Complete(n + 1)[i]
    {
      CompleteAt(n + 1, i);
      if i < n {
        CompleteAt(n, i);
      }
      if i == t {
        if 2 * t + 2 == n {
          assert FirstNil(s[t]) == 1;
        } else {
          assert FirstNil(s[t]) == 0;
        }
      }
    }
  }

  /** Appending to a complete shape gives the complete shape with one more node. */
  lemma {:induction false} AttachComplete(n: nat)
    ensures Attach(Complete(n), [Nil, Nil]) == Complete(n + 1)
  {
    if n == 0 {
      CompleteAt(1, 0);
    } else {
      CompleteTarget(n);
      CompleteGrows(n, (n - 1) / 2);
    }
  }

  /** `n` appends to an empty binary tree give the complete shape of `n` nodes. */
  lemma {:induction false} GrownIsComplete(n: nat)
    ensures Grown(n, [Nil, Nil]) == Complete(n)
  {
    if n > 0 {
      GrownIsComplete(n - 1);
      AttachComplete(n - 1);
    }
  }

  /** Level breadths `2^d` for `d < k`: the largest is the last. */
  lemma {:induction false} MaxCountPowers(levels: seq<seq<int>>)
    requires |levels| > 0 && forall d :: 0 <= d < |levels| ==> |levels[d]| == Pow2(d)
    ensures MaxCount(levels) == Pow2(|levels| - 1)
  {
    var r := MaxCount(levels);
    var k := |levels| - 1;
    assert |levels[k]| == Pow2(k);
    var d :| 0 <= d < |levels| && |levels[d]| == r;
    Pow2Monotone(d, k);
  }

  /** Level `d < k` of the complete shape of `n = 2^k - 1` nodes is full: `2^d` nodes. */
  lemma PerfectLevel(n: nat, k: nat, d: nat)
    requires n == Pow2(k) - 1 && d < k
    ensures |LevelAt(Complete(n), d)| == Pow2(d)
  {
    CompleteLevel(n, d);
    Pow2Monotone(d + 1, k);
    Pow2Step(d + 1);
    var p := Pow2(d);
    assert Min(p - 1, n) == p - 1 && Min(2 * p - 1, n) == 2 * p - 1;
  }

  /** The complete shape of `n = 2^k - 1` nodes has no level `k`. */
  lemma PerfectEnd(n: nat, k: nat)
    requires n == Pow2(k) - 1
    ensures |LevelAt(Complete(n), k)| == 0
  {
    CompleteLevel(n, k);
    assert Min(Pow2(k) - 1, n) == n;
  }

  /** A shape whose level `k - 1` is occupied and whose level `k` is empty has depth `k`. */
  lemma DepthBetween(s: Shape, k: nat)
    requires WellFormed(s) && k > 0 && |LevelAt(s, k - 1)| > 0 && |LevelAt(s, k)| == 0
    ensures TreeDepth(s) == k
  {
    LevelAtEmpty(s, k);
    LevelAtEmpty(s, k - 1);
  }

  /** A shape with `k` occupied levels has depth `k` and `k` levels. */
  lemma DepthAndLevels(s: Shape, k: nat)
    requires WellFormed(s) && k > 0 && |LevelAt(s, k - 1)| > 0 && |LevelAt(s, k)| == 0
    ensures TreeDepth(s) == k && |LevelsOf(s)| == k
  {
    DepthBetween(s, k);
    LevelCountIsDepth(s);
  }

  /** The complete shape of `n = 2^k - 1` nodes is well formed and has depth `k`. */
  lemma PerfectDepth(n: nat, k: nat)
    requires k > 0 && n == Pow2(k) - 1
    ensures WellFormed(Complete(n)) && TreeDepth(Complete(n)) == k && |LevelsOf(Complete(n))| == k
  {
    CompleteWellFormed(n);
    PerfectEnd(n, k);
    PerfectLevel(n, k, k - 1);
    DepthAndLevels(Complete(n), k);
  }

  /** The complete shape of `n = 2^k - 1` nodes: `k` full levels, depth `k`, breadth `2^(k-1)`. */
  lemma PerfectShape(n: nat, k: nat)
    requires k > 0 && n == Pow2(k) - 1
    ensures WellFormed(Complete(n))
    ensures var s := Complete(n);
      TreeDepth(s) == k && |LevelsOf(s)| == k && Breadth(s) == Pow2(k - 1) &&
      forall d :: 0 <= d < k ==> |LevelsOf(s)[d]| == Pow2(d)
  {
    var s := Complete(n);
    PerfectDepth(n, k);
    var levels := LevelsOf(s);
    forall d | 0 <= d < k
      ensures |levels[d]| == Pow2(d)
    {
      LevelsOfAt(s, d);
      PerfectLevel(n, k, d);
    }
    MaxCountPowers(levels);
    assert Breadth(s) == MaxCount(levels);
  }

  /**
   * `2^k - 1` appends to an empty binary tree fill `k` levels completely: level `d`
   * holds `2^d` nodes, the depth is `k`, and the breadth is the last level's `2^(k-1)`.
   */
  lemma PerfectAppends(k: nat)
    requires k > 0
    ensures var s := Grown(Pow2(k) - 1, [Nil, Nil]);
      TreeDepth(s) == k && |LevelsOf(s)| == k && Breadth(s) == Pow2(k - 1) &&
      forall d :: 0 <= d < k ==> |LevelsOf(s)[d]| == Pow2(d)
  {
    GrownIsComplete(Pow2(k) - 1);
    PerfectShape(Pow2(k) - 1, k);
  }

  /** An empty container has no levels, depth 0, breadth 0, and nothing to attach to. */
  lemma EmptyShape()
    ensures LevelsOf([]) == [] && TreeDepth([]) == 0 && Breadth([]) == 0 && Target([]) == None
  {
  }
}
