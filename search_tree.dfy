/**
 * The strict binary search tree of `ArvoreBuscaBinaria.py`: duplicates are
 * ignored on insertion, deletion copies the in-order successor up, height
 * counts edges (an empty tree has height -1) and depth counts edges from the
 * root (-1 when the value is absent).
 *
 * The functions here are the value-level meaning of the recursive helpers
 * `_insert`, `_search`, `_delete`, `_height` and `_depth`; the class
 * `BinarySearchTree` at the end works on heap nodes in place, as the source
 * does, and its methods are proved to compute these functions.
 */
module SearchTree {
  import opened BinaryTrees

  /** Strict order: every value on the left is smaller, every value on the right larger. */
  ghost predicate IsBst(t: Tree)
  {
    match t
    case Empty => true
    case Branch(v, l, r) =>
      && IsBst(l) && IsBst(r)
      && (forall x :: x in Keys(l) ==> x < v)
      && (forall x :: x in Keys(r) ==> v < x)
  }

  /**
   * `insert`/`_insert`: descend by comparison and hang a new leaf where the
   * search falls off the tree; an equal value matches neither branch, so the
   * tree is left as it was.
   */
  function InsertInto(t: Tree, value: int): Tree
  {
    match t
    case Empty => Branch(value, Empty, Empty)
    case Branch(v, l, r) =>
      if value < v then Branch(v, InsertInto(l, value), r)
      else if value > v then Branch(v, l, InsertInto(r, value))
      else t
  }

  /** `search`/`_search`. */
  function SearchIn(t: Tree, value: int): bool
  {
    match t
    case Empty => false
    case Branch(v, l, r) =>
      if v == value then true
      else if value < v then SearchIn(l, value)
      else SearchIn(r, value)
  }

  /** The value `_min_value_node` reaches by following left links. */
  function MinValue(t: Tree): int
    requires t.Branch?
  {
    if t.left.Empty? then t.value else MinValue(t.left)
  }

  /**
   * `delete`/`_delete`: a node with at most one child is replaced by that
   * child; a node with two children takes the minimum of its right subtree,
   * which is then deleted from that subtree.
   */
  function DeleteFrom(t: Tree, value: int): Tree
  {
    match t
    case Empty => Empty
    case Branch(v, l, r) =>
      if value < v then Branch(v, DeleteFrom(l, value), r)
      else if value > v then Branch(v, l, DeleteFrom(r, value))
      else if l.Empty? && r.Empty? then Empty
      else if l.Empty? then r
      else if r.Empty? then l
      else
        var successor := MinValue(r);
        Branch(successor, l, DeleteFrom(r, successor))
  }

  /** `height`/`_height`: edges on the longest root-to-leaf path, -1 when empty. */
  function HeightOf(t: Tree): int
  {
    match t
    case Empty => -1
    case Branch(_, l, r) => 1 + Max(HeightOf(l), HeightOf(r))
  }

  /** `_depth(node, value, d)`: `d` plus the steps taken to reach `value`, or -1. */
  function DepthOf(t: Tree, value: int, d: int): int
  {
    match t
    case Empty => -1
    case Branch(v, l, r) =>
      if v == value then d
      else if value < v then DepthOf(l, value, d + 1)
      else DepthOf(r, value, d + 1)
  }

  // ---------------------------------------------------------------------
  // Insertion
  // ---------------------------------------------------------------------

  lemma {:induction false} InsertKeys(t: Tree, value: int)
    ensures Keys(InsertInto(t, value)) == Keys(t) + {value}
  {
    match t
    case Empty =>
    case Branch(v, l, r) =>
      if value < v { InsertKeys(l, value); }
      else if value > v { InsertKeys(r, value); }
  }

  lemma {:induction false} InsertPreservesBst(t: Tree, value: int)
    requires IsBst(t)
    ensures IsBst(InsertInto(t, value))
  {
    match t
    case Empty =>
    case Branch(v, l, r) =>
      if value < v {
        InsertPreservesBst(l, value);
        InsertKeys(l, value);
      } else if value > v {
        InsertPreservesBst(r, value);
        InsertKeys(r, value);
      }
  }

  /** Inserting leaves the tree unchanged exactly when the value is already there. */
  lemma {:induction false} InsertUnchangedIffPresent(t: Tree, value: int)
    requires IsBst(t)
    ensures InsertInto(t, value) == t <==> value in Keys(t)
  {
    InsertKeys(t, value);
    match t
    case Empty =>
    case Branch(v, l, r) =>
      if value < v {
        if value in Keys(t) {
          assert value in Keys(l);
          InsertUnchangedIffPresent(l, value);
        }
      } else if value > v {
        if value in Keys(t) {
          assert value in Keys(r);
          InsertUnchangedIffPresent(r, value);
        }
      }
  }

  /** An insertion adds exactly one node when the value is absent and none otherwise. */
  lemma {:induction false} InsertSize(t: Tree, value: int)
    requires IsBst(t)
    ensures Size(InsertInto(t, value)) == if value in Keys(t) then Size(t) else Size(t) + 1
  {
    match t
    case Empty =>
    case Branch(v, l, r) =>
      if value < v {
        InsertSize(l, value);
        assert value in Keys(t) <==> value in Keys(l);
      } else if value > v {
        InsertSize(r, value);
        assert value in Keys(t) <==> value in Keys(r);
      }
  }

  // ---------------------------------------------------------------------
  // Search
  // ---------------------------------------------------------------------

  /** A `True` answer is always right, whatever the shape of the tree. */
  lemma {:induction false} SearchSound(t: Tree, value: int)
    ensures SearchIn(t, value) ==> value in Keys(t)
  {
    match t
    case Empty =>
    case Branch(v, l, r) =>
      SearchSound(l, value);
      SearchSound(r, value);
  }

  /** On a search tree, `search` answers membership exactly. */
  lemma {:induction false} SearchCorrect(t: Tree, value: int)
    requires IsBst(t)
    ensures SearchIn(t, value) <==> value in Keys(t)
  {
    SearchSound(t, value);
    match t
    case Empty =>
    case Branch(v, l, r) =>
      if value < v { SearchCorrect(l, value); }
      else if value > v { SearchCorrect(r, value); }
  }

  // ---------------------------------------------------------------------
  // Minimum and deletion
  // ---------------------------------------------------------------------

  /** Following left links ends at the smallest value of a search tree. */
  lemma {:induction false} MinValueIsMinimum(t: Tree)
    requires t.Branch?
    ensures MinValue(t) in Keys(t)
    ensures IsBst(t) ==> forall x :: x in Keys(t) ==> MinValue(t) <= x
  {
    if t.left.Branch? {
      MinValueIsMinimum(t.left);
    }
  }

  lemma {:induction false} DeleteKeys(t: Tree, value: int)
    requires IsBst(t)
    ensures Keys(DeleteFrom(t, value)) == Keys(t) - {value}
    ensures IsBst(DeleteFrom(t, value))
  {
    match t
    case Empty =>
    case Branch(v, l, r) =>
      if value < v {
        DeleteKeys(l, value);
      } else if value > v {
        DeleteKeys(r, value);
      } else if l.Branch? && r.Branch? {
        var successor := MinValue(r);
        MinValueIsMinimum(r);
        DeleteKeys(r, successor);
        assert Keys(r) == Keys(DeleteFrom(r, successor)) + {successor};
      }
  }

  /** Deleting an absent value gives back the very same tree. */
  lemma {:induction false} DeleteAbsent(t: Tree, value: int)
    requires value !in Keys(t)
    ensures DeleteFrom(t, value) == t
  {
    match t
    case Empty =>
    case Branch(v, l, r) =>
      DeleteAbsent(l, value);
      DeleteAbsent(r, value);
  }

  /** Deleting a present value removes exactly one node. */
  lemma {:induction false} DeleteSize(t: Tree, value: int)
    requires IsBst(t) && value in Keys(t)
    ensures Size(DeleteFrom(t, value)) == Size(t) - 1
  {
    match t
    case Branch(v, l, r) =>
      if value < v {
        DeleteSize(l, value);
      } else if value > v {
        DeleteSize(r, value);
      } else if l.Branch? && r.Branch? {
        MinValueIsMinimum(r);
        DeleteSize(r, MinValue(r));
      }
  }

  // ---------------------------------------------------------------------
  // Round trips
  // ---------------------------------------------------------------------

  /** After `insert(v)`, `search(v)` answers `True`; after `delete(v)`, `False`. */
  lemma SearchAfterUpdate(t: Tree, value: int)
    requires IsBst(t)
    ensures SearchIn(InsertInto(t, value), value)
    ensures !SearchIn(DeleteFrom(t, value), value)
  {
    InsertKeys(t, value);
    InsertPreservesBst(t, value);
    SearchCorrect(InsertInto(t, value), value);
    DeleteKeys(t, value);
    SearchCorrect(DeleteFrom(t, value), value);
  }

  /** Updates leave every other value's membership alone. */
  lemma SearchOthersAfterUpdate(t: Tree, value: int, other: int)
    requires IsBst(t) && other != value
    ensures SearchIn(InsertInto(t, value), other) == SearchIn(t, other)
    ensures SearchIn(DeleteFrom(t, value), other) == SearchIn(t, other)
  {
    InsertKeys(t, value);
    InsertPreservesBst(t, value);
    SearchCorrect(InsertInto(t, value), other);
    DeleteKeys(t, value);
    SearchCorrect(DeleteFrom(t, value), other);
    SearchCorrect(t, other);
  }

  // ---------------------------------------------------------------------
  // Height and depth
  // ---------------------------------------------------------------------

  /**
   * Height is -1 exactly for the empty tree, is below the node count, and a
   * tree of height h holds fewer than 2^(h+1) nodes.
   */
  lemma {:induction false} HeightBounds(t: Tree)
    ensures HeightOf(t) >= -1
    ensures HeightOf(t) == -1 <==> t.Empty?
    ensures HeightOf(t) < Size(t) || t.Empty?
    ensures Size(t) < Pow2(HeightOf(t) + 1)
  {
    match t
    case Empty =>
    case Branch(_, l, r) =>
      HeightBounds(l);
      HeightBounds(r);
      Pow2Monotonic(HeightOf(l) + 1, HeightOf(t));
      Pow2Monotonic(HeightOf(r) + 1, HeightOf(t));
  }

  /** Without any order assumption, a non-negative answer names a stored value. */
  lemma {:induction false} DepthSound(t: Tree, value: int, d: int)
    requires d >= 0
    ensures DepthOf(t, value, d) == -1 || value in Keys(t)
    ensures DepthOf(t, value, d) == -1 || d <= DepthOf(t, value, d) <= d + HeightOf(t)
  {
    match t
    case Empty =>
    case Branch(v, l, r) =>
      DepthSound(l, value, d + 1);
      DepthSound(r, value, d + 1);
      HeightBounds(t);
  }

  /** On a search tree, `depth` is -1 exactly for absent values, else at most `height()`. */
  lemma {:induction false} DepthCorrect(t: Tree, value: int)
    requires IsBst(t)
    ensures DepthOf(t, value, 0) == -1 <==> value !in Keys(t)
    ensures value in Keys(t) ==> 0 <= DepthOf(t, value, 0) <= HeightOf(t)
  {
    if value in Keys(t) { DepthFound(t, value, 0); }
    DepthSound(t, value, 0);
  }

  lemma {:induction false} DepthFound(t: Tree, value: int, d: int)
    requires IsBst(t) && d >= 0 && value in Keys(t)
    ensures DepthOf(t, value, d) >= d
  {
    match t
    case Branch(v, l, r) =>
      if value < v { DepthFound(l, value, d + 1); }
      else if value > v { DepthFound(r, value, d + 1); }
  }

  /** The root is at depth 0 and each step down adds one. */
  lemma DepthSteps(t: Tree, value: int)
    requires t.Branch? && IsBst(t)
    ensures value == t.value ==> DepthOf(t, value, 0) == 0
    ensures value < t.value && value in Keys(t.left) ==> DepthOf(t, value, 0) == DepthOf(t.left, value, 0) + 1
    ensures value > t.value && value in Keys(t.right) ==> DepthOf(t, value, 0) == DepthOf(t.right, value, 0) + 1
  {
    DepthShift(t.left, value, 0, 1);
    DepthShift(t.right, value, 0, 1);
    if value in Keys(t.left) { DepthFound(t.left, value, 0); }
    if value in Keys(t.right) { DepthFound(t.right, value, 0); }
  }

  lemma {:induction false} DepthShift(t: Tree, value: int, d: int, e: int)
    requires d >= 0 && e >= 0
    ensures DepthOf(t, value, d + e) == if DepthOf(t, value, d) == -1 then -1 else DepthOf(t, value, d) + e
  {
    match t
    case Empty =>
    case Branch(v, l, r) =>
      DepthShift(l, value, d + 1, e);
      DepthShift(r, value, d + 1, e);
  }

  // ---------------------------------------------------------------------
  // The heap structure: `BinarySearchTree` over `Node` objects
  // ---------------------------------------------------------------------

  class BinarySearchTree {
    var root: Node?
    ghost var Repr: set<object>
    ghost var Model: Tree

    /** The tree owns its nodes, and they are always in strict search order. */
    ghost predicate Valid()
      reads this, Repr
      ensures Valid() ==> this in Repr
    {
      && this in Repr
      && (root != null ==> root in Repr && root.Repr <= Repr && this !in root.Repr && root.Valid())
      && Repr == {this} + ReprOf(root)
      && Model == ModelOf(root)
      && IsBst(Model)
    }

    constructor ()
      ensures Valid() && fresh(Repr)
      ensures Model == Empty
    {
      root := null;
      Repr := {this};
      Model := Empty;
    }

    /** `insert(value)`: the new values are the old ones plus `value`. */
    method Insert(value: int)
      requires Valid()
      modifies Repr
      ensures Valid() && fresh(Repr - old(Repr))
      ensures Model == InsertInto(old(Model), value)
      ensures Keys(Model) == Keys(old(Model)) + {value}
    {
      InsertKeys(Model, value);
      InsertPreservesBst(Model, value);
      if root == null {
        root := new Node(value);
      } else {
        InsertAt(root, value);
      }
      Repr := {this} + root.Repr;
      Model := root.Model;
    }

    /** `_insert(current, value)`: hangs a new leaf below `current`, in place. */
    static method InsertAt(current: Node, value: int)
      requires current.Valid()
      modifies current.Repr
      ensures current.Valid() && fresh(current.Repr - old(current.Repr))
      ensures current.Model == InsertInto(old(current.Model), value)
      decreases current.Repr
    {
      if value < current.value {
        if current.left == null {
          var leaf := new Node(value);
          current.SetLeft(leaf);
        } else {
          InsertAt(current.left, value);
          current.Reseal();
        }
      } else if value > current.value {
        if current.right == null {
          var leaf := new Node(value);
          current.SetRight(leaf);
        } else {
          InsertAt(current.right, value);
          current.Reseal();
        }
      }
    }

    /** `search(value)`: on the search-ordered tree, exactly membership. */
    method Search(value: int) returns (found: bool)
      requires Valid()
      ensures found == SearchIn(Model, value)
      ensures found <==> value in Keys(Model)
    {
      SearchCorrect(Model, value);
      found := SearchAt(root, value);
    }

    /** `_search(current, value)`. */
    static method SearchAt(current: Node?, value: int) returns (found: bool)
      requires ValidOrNull(current)
      ensures found == SearchIn(ModelOf(current), value)
      decreases ReprOf(current)
    {
      if current == null {
        return false;
      }
      if current.value == value {
        return true;
      } else if value < current.value {
        found := SearchAt(current.left, value);
      } else {
        found := SearchAt(current.right, value);
      }
    }

    /** `delete(value)`: the new values are the old ones without `value`. */
    method Delete(value: int)
      requires Valid()
      modifies Repr
      ensures Valid() && Repr <= old(Repr)
      ensures Model == DeleteFrom(old(Model), value)
      ensures Keys(Model) == Keys(old(Model)) - {value}
    {
      DeleteKeys(Model, value);
      root := DeleteAt(root, value);
      Repr := {this} + ReprOf(root);
      Model := ModelOf(root);
    }

    /**
     * `_delete(current, value)`: returns the new root of the subtree; a node
     * with two children has its value overwritten by its successor's.
     */
    static method DeleteAt(current: Node?, value: int) returns (r: Node?)
      requires ValidOrNull(current)
      modifies ReprOf(current)
      ensures ValidOrNull(r) && ReprOf(r) <= old(ReprOf(current))
      ensures ModelOf(r) == DeleteFrom(old(ModelOf(current)), value)
      decreases ReprOf(current), 1
    {
      if current == null {
        return current;
      }
      if value < current.value {
        var l := DeleteAt(current.left, value);
        current.SetLeft(l);
        r := current;
      } else if value > current.value {
        var rt := DeleteAt(current.right, value);
        current.SetRight(rt);
        r := current;
      } else {
        r := RemoveNode(current);
      }
    }

    /**
     * The last branch of `_delete`, for the node holding the value: a leaf
     * disappears, a node with one child is replaced by it, and a node with
     * two children takes its successor's value, which is then deleted from
     * the right subtree.
     */
    static method RemoveNode(current: Node) returns (r: Node?)
      requires current.Valid()
      modifies current.Repr
      ensures ValidOrNull(r) && ReprOf(r) <= old(current.Repr)
      ensures ModelOf(r) == DeleteFrom(old(current.Model), old(current.value))
      decreases current.Repr, 0
    {
      if current.left == null && current.right == null {
        r := null;
      } else if current.left == null {
        r := current.right;
      } else if current.right == null {
        r := current.left;
      } else {
        var successor := MinValueNode(current.right);
        current.value := successor.value;
        var rt := DeleteAt(current.right, successor.value);
        current.SetRight(rt);
        r := current;
      }
    }

    /** `_min_value_node(node)`: follows left links to the leftmost node. */
    static method MinValueNode(node: Node) returns (m: Node)
      requires node.Valid()
      ensures m.Valid() && m in node.Repr && m.left == null
      ensures m.value == MinValue(node.Model)
    {
      var current: Node := node;
      while current.left != null
        invariant current.Valid() && current.Repr <= node.Repr
        invariant MinValue(current.Model) == MinValue(node.Model)
        decreases current.Repr
      {
        current := current.left;
      }
      m := current;
    }

    /** `height()`: -1 for the empty tree, else edges on the longest path. */
    method Height() returns (h: int)
      requires Valid()
      ensures h == HeightOf(Model)
    {
      h := HeightAt(root);
    }

    /** `_height(node)`. */
    static method HeightAt(node: Node?) returns (h: int)
      requires ValidOrNull(node)
      ensures h == HeightOf(ModelOf(node))
      decreases ReprOf(node)
    {
      if node == null {
        return -1;
      }
      var hl := HeightAt(node.left);
      var hr := HeightAt(node.right);
      h := 1 + Max(hl, hr);
    }

    /** `depth(value)`: edges from the root to `value`, or -1 when it is absent. */
    method Depth(value: int) returns (d: int)
      requires Valid()
      ensures d == DepthOf(Model, value, 0)
      ensures d == -1 <==> value !in Keys(Model)
    {
      DepthCorrect(Model, value);
      d := DepthAt(root, value, 0);
    }

    /** `_depth(node, value, d)`. */
    static method DepthAt(node: Node?, value: int, d: int) returns (r: int)
      requires ValidOrNull(node)
      ensures r == DepthOf(ModelOf(node), value, d)
      decreases ReprOf(node)
    {
      if node == null {
        return -1;
      }
      if node.value == value {
        return d;
      } else if value < node.value {
        r := DepthAt(node.left, value, d + 1);
      } else {
        r := DepthAt(node.right, value, d + 1);
      }
    }
  }
}
