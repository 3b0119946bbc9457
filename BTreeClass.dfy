/**
 * The `BTree` class of `BTree.swift`: the order `m` and the root, which `insert`
 * and `delete` reassign. The nodes below the root are the values of `BTreeNodes`,
 * and each public operation is the function of `BTrees` or `BTreeDelete` applied
 * to the root.
 */
module BTreeObjects {
  import opened Wrappers
  import opened BTreeNodes
  import opened BTrees
  import opened BTreeDelete

  class BTree<V> {
    var root: Option<Node<V>>
    const m: int

    /** A B-tree of order `m`, possibly empty. */
    ghost predicate Valid()
      reads this
    {
      ValidRoot(root, m)
    }

    /** `init(m:)`: an empty tree of order `m`. */
    constructor (m: int)
      ensures this.m == m && root == None
      ensures m >= 3 ==> Valid()
    {
      this.m := m;
      root := None;
    }

    /** `isEmpty()`: no root, which for a valid tree is the same as no entries. */
    function IsEmpty(): (b: bool)
      reads this
      ensures Valid() ==> (b <==> EntriesOf(root) == [])
    {
      NoRootNoEntries(root, m);
      root.None?
    }

    /** `find(key:)`: the value stored under `k`, if any. */
    method Find(k: int) returns (r: Option<Slice<V>>)
      requires Valid()
      ensures r == if Get(EntriesOf(root), k).Some? then Some(Slice(k, Get(EntriesOf(root), k).value)) else None
    {
      if root.None? {
        r := None;
      } else {
        FindSound(root.value, m, k);
        r := FindIn(root.value, k);
      }
    }

    /** `insert(_:forKey:)`: stores `v` under `k`, keeping every other entry. */
    method Insert(k: int, v: V)
      requires Valid()
      modifies this
      ensures root == InsertKey(Intended, old(root), m, k, v)
      ensures Valid() && EntriesOf(root) == Put(EntriesOf(old(root)), k, v)
    {
      InsertSound(root, m, k, v);
      root := InsertKey(Intended, root, m, k, v);
    }

    /** `delete(withKey:)`: drops the entry with key `k`, if there is one, keeping every other entry. */
    method Delete(k: int)
      requires Valid()
      modifies this
      ensures root == DeleteKey(old(root), m, k)
      ensures Valid() && EntriesOf(root) == Remove(EntriesOf(old(root)), k)
      ensures Get(EntriesOf(old(root)), k).None? ==> root == old(root)
    {
      DeleteSound(root, m, k);
      root := DeleteKey(root, m, k);
    }
  }

  /** A valid tree has a root exactly when it has entries. */
  lemma NoRootNoEntries<V>(root: Option<Node<V>>, m: int)
    ensures ValidRoot(root, m) ==> (root.None? <==> EntriesOf(root) == [])
  {
    if ValidRoot(root, m) && root.Some? {
      ElemsNonEmpty(root.value);
    }
  }
}
