/**
 * Child-array nodes of the unbalanced containers: `TreeNode` (used by `GenericTree`)
 * and `GeneralNode` (used by `GeneralTree`). Each keeps its children in an array of
 * optional references that its methods edit in place; none of them touches
 * `parent`, which stays as it was created (nothing in these classes ever sets it).
 */
module TreeNodes {

  import opened Wrappers

  class TreeNode<T> {
    var parent: TreeNode?<T>
    var children: seq<TreeNode?<T>>
    var value: T

    constructor (value: T)
      ensures this.value == value && children == [] && parent == null
    {
      this.value := value;
      children := [];
      parent := null;
    }

    /** Subscript read. */
    function Child(index: int): TreeNode?<T>
      reads this
      requires 0 <= index < |children|
    {
      children[index]
    }

    /** Subscript write: only slot `index` changes, the array keeps its length. */
    method SetChild(index: int, child: TreeNode?<T>)
      requires 0 <= index < |children|
      modifies this`children
      ensures |children| == |old(children)|
      ensures children[index] == child
      ensures forall k :: 0 <= k < |children| && k != index ==> children[k] == old(children)[k]
    {
      children := children[index := child];
    }

    /** The child goes last; the others keep their places. */
    method Append(child: TreeNode<T>)
      modifies this`children
      ensures |children| == |old(children)| + 1
      ensures children[..|old(children)|] == old(children) && children[|old(children)|] == child
    {
      children := children + [child];
    }

    /** The child goes first; the others move one place to the right. */
    method Prepend(child: TreeNode<T>)
      modifies this`children
      ensures |children| == |old(children)| + 1
      ensures children[0] == child && children[1..] == old(children)
    {
      children := [child] + children;
    }

    /** The child goes to `index`; those before keep their places, those after move right. */
    method Insert(child: TreeNode<T>, index: int)
      requires 0 <= index <= |children|
      modifies this`children
      ensures |children| == |old(children)| + 1
      ensures children[index] == child
      ensures children[..index] == old(children)[..index]
      ensures children[index + 1..] == old(children)[index..]
    {
      children := children[..index] + [child] + children[index..];
    }
  }

  /**
   * The node of `GeneralTree`: the same child array, an optional value, and child
   * operations declared `throws` that never throw.
   */
  class GeneralNode<T> {
    var parent: GeneralNode?<T>
    var children: seq<GeneralNode?<T>>
    var value: Option<T>

    constructor (value: Option<T>)
      ensures this.value == value && children == [] && parent == null
    {
      this.value := value;
      children := [];
      parent := null;
    }

    function Child(index: int): GeneralNode?<T>
      reads this
      requires 0 <= index < |children|
    {
      children[index]
    }

    method SetChild(index: int, child: GeneralNode?<T>)
      requires 0 <= index < |children|
      modifies this`children
      ensures |children| == |old(children)|
      ensures children[index] == child
      ensures forall k :: 0 <= k < |children| && k != index ==> children[k] == old(children)[k]
    {
      children := children[index := child];
    }

    method Append(child: GeneralNode<T>)
      modifies this`children
      ensures |children| == |old(children)| + 1
      ensures children[..|old(children)|] == old(children) && children[|old(children)|] == child
    {
      children := children + [child];
    }

    method Prepend(child: GeneralNode<T>)
      modifies this`children
      ensures |children| == |old(children)| + 1
      ensures children[0] == child && children[1..] == old(children)
    {
      children := [child] + children;
    }

    method Insert(child: GeneralNode<T>, index: int)
      requires 0 <= index <= |children|
      modifies this`children
      ensures |children| == |old(children)| + 1
      ensures children[index] == child
      ensures children[..index] == old(children)[..index]
      ensures children[index + 1..] == old(children)[index..]
    {
      children := children[..index] + [child] + children[index..];
    }
  }
}
