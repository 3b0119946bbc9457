/**
 * Binary search over the key array of a node: `Array.insertionPoint(value:)` and
 * `Array.findIndexByValue(_:)`.
 *
 * Both Swift loops keep `upperIndex` as an exclusive bound at the start but then
 * move it to `middleIndex - 1` as if it were inclusive, and both compute the middle
 * with Swift's truncating division. The `AsWritten...` functions transcribe those
 * loops step by step; the methods of the same name run them and are proved to
 * return exactly what the transcription returns. The lemmas below say what that
 * result is worth: always in bounds, always sound when it reports a hit, exact on
 * sorted arrays of at most two keys except for the first of two keys, and wrong on
 * longer arrays. The `...Corrected` methods keep the upper bound exclusive and are
 * proved against `LowerBound`, the intended result.
 */
module ArraySearch {
  import opened Wrappers

  /** Swift's `d / 2`: truncation toward zero, so `-1 / 2 == 0`. */
  function Half(d: int): int {
    if d >= 0 then d / 2 else -((-d) / 2)
  }

  function Max(x: int, y: int): int {
    if x >= y then x else y
  }

  ghost predicate StrictlySorted(a: seq<int>) {
    forall i, j :: 0 <= i < j < |a| ==> a[i] < a[j]
  }

  /** Where `v` belongs in `a`: the index of the first element that is not below `v`. */
  function LowerBound(a: seq<int>, v: int): (r: nat)
    ensures r <= |a|
    ensures forall i :: 0 <= i < r ==> a[i] < v
    ensures r < |a| ==> a[r] >= v
  {
    if |a| == 0 || a[0] >= v then 0 else 1 + LowerBound(a[1..], v)
  }

  /** On a sorted array everything from the lower bound on is at least `v`. */
  lemma LowerBoundSorted(a: seq<int>, v: int)
    requires StrictlySorted(a)
    ensures forall i :: LowerBound(a, v) <= i < |a| ==> a[i] >= v
    ensures v in a <==> LowerBound(a, v) < |a| && a[LowerBound(a, v)] == v
  {
    var r := LowerBound(a, v);
    if r < |a| {
      forall i | r <= i < |a| ensures a[i] >= v {
        if i > r { assert a[r] < a[i]; }
      }
    }
  }

  /** The lower bound is the only index with everything before it below `v` and itself not. */
  lemma LowerBoundUnique(a: seq<int>, v: int, k: int)
    requires 0 <= k <= |a|
    requires forall i :: 0 <= i < k ==> a[i] < v
    requires k < |a| ==> a[k] >= v
    ensures LowerBound(a, v) == k
  {
  }

  // ---------------------------------------------------------------------------
  // insertionPoint, as written

  /**
   * The `while` loop of `insertionPoint` from state (lower, upper, middle), with
   * `a[middle]` the value at the middle, transcribed branch by branch.
   */
  function InsertionLoop(a: seq<int>, value: int, lower: int, upper: int, middle: int): (r: (bool, int))
    requires 0 <= middle < |a|
    requires lower < upper ==> lower <= middle < upper
    ensures 0 <= r.1 <= |a|
    ensures r.0 ==> r.1 < |a| && a[r.1] == value
    decreases upper - lower
  {
    if lower >= upper then
      (false, if a[middle] < value then middle + 1 else Max(middle - 1, 0))
    else if a[middle] < value then
      var middle' := middle + 1 + Half(upper - (middle + 1));
      if middle' < 0 then (false, 0)
      else if middle' >= |a| then (false, |a|)
      else InsertionLoop(a, value, middle + 1, upper, middle')
    else if a[middle] > value then
      var middle' := lower + Half(middle - 1 - lower);
      if middle' < 0 then (false, 0)
      else if middle' >= |a| then (false, |a|)
      else InsertionLoop(a, value, lower, middle - 1, middle')
    else
      (true, middle)
  }

  /** `insertionPoint(value:)` as written: (found, index). */
  function AsWrittenInsertionPoint(a: seq<int>, value: int): (r: (bool, int))
    ensures 0 <= r.1 <= |a|
    ensures r.0 ==> r.1 < |a| && a[r.1] == value
    ensures |a| == 0 ==> r == (false, 0)
  {
    if |a| == 0 then (false, 0) else InsertionLoop(a, value, 0, |a|, Half(|a|))
  }

  method InsertionPoint(a: seq<int>, value: int) returns (found: bool, index: int)
    ensures (found, index) == AsWrittenInsertionPoint(a, value)
  {
    if |a| == 0 {
      return false, 0;
    }
    var lowerIndex := 0;
    var upperIndex := |a|;
    var middleIndex := lowerIndex + Half(upperIndex - lowerIndex);
    var valueAtMiddle := a[middleIndex];
    while lowerIndex < upperIndex
      invariant 0 <= middleIndex < |a| && valueAtMiddle == a[middleIndex]
      invariant lowerIndex < upperIndex ==> lowerIndex <= middleIndex < upperIndex
      invariant InsertionLoop(a, value, lowerIndex, upperIndex, middleIndex) == AsWrittenInsertionPoint(a, value)
      decreases upperIndex - lowerIndex
    {
      if valueAtMiddle < value {
        lowerIndex := middleIndex + 1;
      } else if valueAtMiddle > value {
        upperIndex := middleIndex - 1;
      } else {
        return true, middleIndex;
      }
      middleIndex := lowerIndex + Half(upperIndex - lowerIndex);
      if middleIndex < 0 {
        return false, 0;
      }
      if middleIndex >= |a| {
        return false, |a|;
      }
      valueAtMiddle := a[middleIndex];
    }
    return false, if valueAtMiddle < value then middleIndex + 1 else Max(middleIndex - 1, 0);
  }

  /**
   * On a sorted array of at most two keys the index is the lower bound, and a key is
   * reported present exactly when it is there, except the first of two keys: the
   * first probe looks at `a[1]`, moves `upper` to 0 and the loop stops before
   * comparing `a[0]`.
   */
  lemma {:induction false} AsWrittenShortArrays(a: seq<int>, value: int)
    requires StrictlySorted(a) && |a| <= 2
    ensures AsWrittenInsertionPoint(a, value).1 == LowerBound(a, value)
    ensures AsWrittenInsertionPoint(a, value).0 <==> value in a && !(|a| == 2 && value == a[0])
  {
    if |a| == 1 {
      assert InsertionLoop(a, value, 0, 1, 0) == AsWrittenInsertionPoint(a, value);
      if a[0] > value {
        assert InsertionLoop(a, value, 0, -1, 0) == AsWrittenInsertionPoint(a, value);
      }
    } else if |a| == 2 {
      assert a[0] < a[1];
      assert InsertionLoop(a, value, 0, 2, 1) == AsWrittenInsertionPoint(a, value);
      if a[1] > value {
        assert InsertionLoop(a, value, 0, 0, 0) == AsWrittenInsertionPoint(a, value);
      }
    }
  }

  /** The first of two keys is reported absent. */
  lemma AsWrittenMissesFirstOfTwo()
    ensures AsWrittenInsertionPoint([1, 2], 1) == (false, 0)
  {
    assert InsertionLoop([1, 2], 1, 0, 2, 1) == (false, 0) by {
      assert InsertionLoop([1, 2], 1, 0, 0, 0) == (false, 0);
    }
  }

  /** A key that falls between the last two of three keys gets the wrong index. */
  lemma AsWrittenWrongIndex()
    ensures AsWrittenInsertionPoint([1, 3, 5], 4) == (false, 1)
    ensures LowerBound([1, 3, 5], 4) == 2
  {
    assert InsertionLoop([1, 3, 5], 4, 0, 3, 1) == (false, 1) by {
      assert InsertionLoop([1, 3, 5], 4, 2, 3, 2) == (false, 1) by {
        assert InsertionLoop([1, 3, 5], 4, 2, 1, 2) == (false, 1);
      }
    }
  }

  /** A key present in a five-key array is missed and given an index before its own. */
  lemma AsWrittenMissesPresentKey()
    ensures AsWrittenInsertionPoint([1, 2, 3, 4, 5], 4) == (false, 2)
  {
    assert InsertionLoop([1, 2, 3, 4, 5], 4, 0, 5, 2) == (false, 2) by {
      assert InsertionLoop([1, 2, 3, 4, 5], 4, 3, 5, 4) == (false, 2) by {
        assert InsertionLoop([1, 2, 3, 4, 5], 4, 3, 3, 3) == (false, 2);
      }
    }
  }

  // ---------------------------------------------------------------------------
  // findIndexByValue, as written

  /** The `while` loop of `findIndexByValue` from state (lower, upper, middle). */
  function FindLoop(a: seq<int>, value: int, lower: int, upper: int, middle: int): (r: Option<int>)
    requires 0 <= middle < |a|
    requires lower < upper ==> lower <= middle < upper
    ensures r.Some? ==> 0 <= r.value < |a| && a[r.value] == value
    decreases upper - lower
  {
    if lower >= upper then
      None
    else if a[middle] < value then
      var middle' := middle + 1 + Half(upper - (middle + 1));
      if middle' < 0 || middle' >= |a| then None
      else FindLoop(a, value, middle + 1, upper, middle')
    else if a[middle] > value then
      var middle' := lower + Half(middle - 1 - lower);
      if middle' < 0 || middle' >= |a| then None
      else FindLoop(a, value, lower, middle - 1, middle')
    else
      Some(middle)
  }

  /** `findIndexByValue(_:)` as written. */
  function AsWrittenFindIndex(a: seq<int>, value: int): (r: Option<int>)
    ensures r.Some? ==> 0 <= r.value < |a| && a[r.value] == value
    ensures |a| == 0 ==> r == None
  {
    if |a| == 0 then None else FindLoop(a, value, 0, |a|, Half(|a|))
  }

  method FindIndexByValue(a: seq<int>, value: int) returns (r: Option<int>)
    ensures r == AsWrittenFindIndex(a, value)
  {
    if |a| == 0 {
      return None;
    }
    var lowerIndex := 0;
    var upperIndex := |a|;
    var middleIndex := lowerIndex + Half(upperIndex - lowerIndex);
    var valueAtMiddle := a[middleIndex];
    while lowerIndex < upperIndex
      invariant 0 <= middleIndex < |a| && valueAtMiddle == a[middleIndex]
      invariant lowerIndex < upperIndex ==> lowerIndex <= middleIndex < upperIndex
      invariant FindLoop(a, value, lowerIndex, upperIndex, middleIndex) == AsWrittenFindIndex(a, value)
      decreases upperIndex - lowerIndex
    {
      if valueAtMiddle < value {
        lowerIndex := middleIndex + 1;
      } else if valueAtMiddle > value {
        upperIndex := middleIndex - 1;
      } else {
        return Some(middleIndex);
      }
      middleIndex := lowerIndex + Half(upperIndex - lowerIndex);
      if middleIndex < 0 || middleIndex >= |a| {
        return None;
      }
      valueAtMiddle := a[middleIndex];
    }
    return None;
  }

  /** On sorted arrays of at most two keys only the first of two keys is missed. */
  lemma {:induction false} AsWrittenFindShortArrays(a: seq<int>, value: int)
    requires StrictlySorted(a) && |a| <= 2
    ensures AsWrittenFindIndex(a, value).Some? <==> value in a && !(|a| == 2 && value == a[0])
  {
    if |a| == 1 {
      assert FindLoop(a, value, 0, 1, 0) == AsWrittenFindIndex(a, value);
    } else if |a| == 2 {
      assert a[0] < a[1];
      assert FindLoop(a, value, 0, 2, 1) == AsWrittenFindIndex(a, value);
      if a[1] > value {
        assert FindLoop(a, value, 0, 0, 0) == AsWrittenFindIndex(a, value);
      }
    }
  }

  lemma AsWrittenFindMissesFirstOfTwo()
    ensures AsWrittenFindIndex([1, 2], 1) == None
  {
    assert FindLoop([1, 2], 1, 0, 2, 1) == None by {
      assert FindLoop([1, 2], 1, 0, 0, 0) == None;
    }
  }

  // ---------------------------------------------------------------------------
  // Corrected searches: `upperIndex` stays exclusive (`upperIndex = middleIndex`).

  method InsertionPointCorrected(a: seq<int>, value: int) returns (found: bool, index: int)
    ensures 0 <= index <= |a|
    ensures found ==> index < |a| && a[index] == value
    ensures StrictlySorted(a) ==> index == LowerBound(a, value) && (found <==> value in a)
  {
    var lowerIndex := 0;
    var upperIndex := |a|;
    while lowerIndex < upperIndex
      invariant 0 <= lowerIndex <= upperIndex <= |a|
      invariant StrictlySorted(a) ==> forall i :: 0 <= i < lowerIndex ==> a[i] < value
      invariant StrictlySorted(a) ==> forall i :: upperIndex <= i < |a| ==> a[i] > value
    {
      var middleIndex := lowerIndex + (upperIndex - lowerIndex) / 2;
      var valueAtMiddle := a[middleIndex];
      if valueAtMiddle < value {
        if StrictlySorted(a) {
          forall i | 0 <= i <= middleIndex ensures a[i] < value {
            if i < middleIndex { assert a[i] < a[middleIndex]; }
          }
        }
        lowerIndex := middleIndex + 1;
      } else if valueAtMiddle > value {
        if StrictlySorted(a) {
          forall i | middleIndex <= i < |a| ensures a[i] > value {
            if i > middleIndex { assert a[middleIndex] < a[i]; }
          }
        }
        upperIndex := middleIndex;
      } else {
        if StrictlySorted(a) {
          LowerBoundUnique(a, value, middleIndex);
        }
        return true, middleIndex;
      }
    }
    if StrictlySorted(a) {
      LowerBoundUnique(a, value, lowerIndex);
    }
    return false, lowerIndex;
  }

  method FindIndexByValueCorrected(a: seq<int>, value: int) returns (r: Option<int>)
    ensures r.Some? ==> 0 <= r.value < |a| && a[r.value] == value
    ensures StrictlySorted(a) ==> (r.Some? <==> value in a)
  {
    var found, index := InsertionPointCorrected(a, value);
    r := if found then Some(index) else None;
  }
}
