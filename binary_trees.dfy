/**
 * The plain binary tree shared by the two unbalanced search trees of the
 * repository: a node holds an integer value and two optional children.
 *
 * `Tree` is the value a subtree denotes (`Empty` stands for Python's `None`);
 * `Node` is the heap object the source mutates in place, and its ghost `Model`
 * is the `Tree` it currently denotes. `Max` and `Pow2`, the arithmetic of
 * heights, are shared with the AVL modules as well.
 */
module BinaryTrees {

  datatype Tree = Empty | Branch(value: int, left: Tree, right: Tree)

  /** Number of nodes. */
  function Size(t: Tree): nat
  {
    match t
    case Empty => 0
    case Branch(_, l, r) => Size(l) + 1 + Size(r)
  }

  /** The set of values stored in the tree. */
  function Keys(t: Tree): set<int>
  {
    match t
    case Empty => {}
    case Branch(v, l, r) => Keys(l) + {v} + Keys(r)
  }

  /** The values stored in the tree, with their multiplicities. */
  function Values(t: Tree): multiset<int>
  {
    match t
    case Empty => multiset{}
    case Branch(v, l, r) => Values(l) + multiset{v} + Values(r)
  }

  /** Python's `max` of two integers, as the height computations use it. */
  function Max(a: int, b: int): int
  {
    if a >= b then a else b
  }

  /** 2 to the power `n`, for the bounds relating a tree's height to its size. */
  function Pow2(n: nat): (p: nat)
    ensures p >= 1
  {
    if n == 0 then 1 else 2 * Pow2(n - 1)
  }

  lemma {:induction false} Pow2Monotonic(m: nat, n: nat)
    requires m <= n
    ensures Pow2(m) <= Pow2(n)
  {
    if m < n {
      Pow2Monotonic(m, n - 1);
    }
  }

  /** A heap node: `value`, `left` and `right` as in the source's `Node`. */
  class Node {
    var value: int
    var left: Node?
    var right: Node?
    ghost var Repr: set<object>
    ghost var Model: Tree

    /**
     * The node owns its two subtrees exclusively: their footprints are
     * disjoint and do not contain this node, so the structure is a tree.
     */
    ghost predicate Valid()
      reads this, Repr
      ensures Valid() ==> this in Repr && Model.Branch? && Model.value == value
      decreases Repr
    {
      && this in Repr
      && (left != null ==>
            left in Repr && left.Repr <= Repr && this !in left.Repr && left.Valid())
      && (right != null ==>
            right in Repr && right.Repr <= Repr && this !in right.Repr && right.Valid())
      && (left != null && right != null ==> left.Repr !! right.Repr)
      && Model == Branch(value, if left == null then Empty else left.Model, if right == null then Empty else right.Model)
    }

    /** `Node(value)`: a fresh node without children. */
    constructor (value: int)
      ensures Valid() && fresh(Repr)
      ensures Model == Branch(value, Empty, Empty)
      ensures this.value == value && left == null && right == null
    {
      this.value := value;
      left := null;
      right := null;
      Repr := {this};
      Model := Branch(value, Empty, Empty);
    }

    /**
     * Proof bookkeeping: after a subtree was changed in place, recomputes the
     * ghost footprint and model so that `Valid()` holds again.
     */
    ghost method Reseal()
      requires ValidOrNull(left) && ValidOrNull(right)
      requires this !in ReprOf(left) && this !in ReprOf(right) && ReprOf(left) !! ReprOf(right)
      modifies this`Repr, this`Model
      ensures Valid()
      ensures Repr == {this} + ReprOf(left) + ReprOf(right)
      ensures Model == Branch(value, ModelOf(left), ModelOf(right))
    {
      Repr := {this} + ReprOf(left) + ReprOf(right);
      Model := Branch(value, ModelOf(left), ModelOf(right));
    }

    /** `left = l`, keeping the ghost footprint and model in step. */
    method SetLeft(l: Node?)
      requires ValidOrNull(l) && ValidOrNull(right)
      requires this !in ReprOf(l) && this !in ReprOf(right) && ReprOf(l) !! ReprOf(right)
      modifies this
      ensures Valid() && left == l && right == old(right) && value == old(value)
      ensures Repr == {this} + ReprOf(l) + ReprOf(right)
      ensures Model == Branch(value, ModelOf(l), ModelOf(right))
    {
      left := l;
      Repr := {this} + ReprOf(l) + ReprOf(right);
      Model := Branch(value, ModelOf(l), ModelOf(right));
    }

    /** `right = r`, keeping the ghost footprint and model in step. */
    method SetRight(r: Node?)
      requires ValidOrNull(left) && ValidOrNull(r)
      requires this !in ReprOf(left) && this !in ReprOf(r) && ReprOf(left) !! ReprOf(r)
      modifies this
      ensures Valid() && right == r && left == old(left) && value == old(value)
      ensures Repr == {this} + ReprOf(left) + ReprOf(r)
      ensures Model == Branch(value, ModelOf(left), ModelOf(r))
    {
      right := r;
      Repr := {this} + ReprOf(left) + ReprOf(r);
      Model := Branch(value, ModelOf(left), ModelOf(r));
    }
  }

  /** The tree an optional node denotes; `null` denotes the empty tree. */
  ghost function ModelOf(n: Node?): Tree
    reads n
  {
    if n == null then Empty else n.Model
  }

  /** The objects an optional node owns. */
  ghost function ReprOf(n: Node?): set<object>
    reads n
  {
    if n == null then {} else n.Repr
  }

  /** An optional node that is either `null` or a valid tree. */
  ghost predicate ValidOrNull(n: Node?)
    reads n, if n == null then {} else n.Repr
  {
    n != null ==> n.Valid()
  }
}
