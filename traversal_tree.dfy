/**
 * The unbalanced binary tree of `Arvore_balanceada.py`: `inserir` sends a
 * value smaller than a node to the left and every other value, equal ones
 * included, to the right, so the tree holds a multiset; `inorder`,
 * `preorder` and `postorder` build lists by concatenation.
 *
 * Despite the file's name nothing here rebalances. The functions give the
 * value-level meaning; the class `BinaryTree` works on heap nodes in place.
 */
module TraversalTree {
  import opened BinaryTrees

  /** Left values are smaller than the node, right values at least as large. */
  ghost predicate IsOrdered(t: Tree)
  {
    match t
    case Empty => true
    case Branch(v, l, r) =>
      && IsOrdered(l) && IsOrdered(r)
      && (forall x :: x in Keys(l) ==> x < v)
      && (forall x :: x in Keys(r) ==> v <= x)
  }

  /** `inserir`/`_inserir_rec`: smaller values go left, all others go right. */
  function InsertInto(t: Tree, value: int): Tree
  {
    match t
    case Empty => Branch(value, Empty, Empty)
    case Branch(v, l, r) =>
      if value < v then Branch(v, InsertInto(l, value), r)
      else Branch(v, l, InsertInto(r, value))
  }

  /** The tree the demo builds by inserting `values` one after another into an empty tree. */
  function Build(values: seq<int>): Tree
  {
    if values == [] then Empty
    else InsertInto(Build(values[..|values| - 1]), values[|values| - 1])
  }

  /** `inorder(no)`: defined on a node, so only for a non-empty tree. */
  function InorderOf(t: Tree): seq<int>
    requires t.Branch?
  {
    (if t.left.Branch? then InorderOf(t.left) else [])
    + [t.value]
    + (if t.right.Branch? then InorderOf(t.right) else [])
  }

  /** `preorder(no)`: the node, then its left and right subtrees. */
  function PreorderOf(t: Tree): seq<int>
    requires t.Branch?
  {
    [t.value]
    + (if t.left.Branch? then PreorderOf(t.left) else [])
    + (if t.right.Branch? then PreorderOf(t.right) else [])
  }

  /** `postorder(no)`: both subtrees, then the node. */
  function PostorderOf(t: Tree): seq<int>
    requires t.Branch?
  {
    (if t.left.Branch? then PostorderOf(t.left) else [])
    + (if t.right.Branch? then PostorderOf(t.right) else [])
    + [t.value]
  }

  ghost predicate Sorted(s: seq<int>)
  {
    forall i, j :: 0 <= i < j < |s| ==> s[i] <= s[j]
  }

  // ---------------------------------------------------------------------
  // Insertion
  // ---------------------------------------------------------------------

  /** Adding to one part of a three-way union adds to the whole. */
  lemma Append(a: multiset<int>, b: multiset<int>, c: multiset<int>, x: multiset<int>)
    ensures (a + x) + b + c == a + b + c + x
    ensures a + b + (c + x) == a + b + c + x
  {
  }

  /** Each insertion adds exactly one occurrence of the value. */
  lemma {:induction false} InsertValues(t: Tree, value: int)
    ensures Values(InsertInto(t, value)) == Values(t) + multiset{value}
  {
    match t
    case Empty =>
    case Branch(v, l, r) =>
      if value < v { InsertValues(l, value); }
      else { InsertValues(r, value); }
      Append(Values(l), multiset{v}, Values(r), multiset{value});
  }

  /** Each insertion adds exactly one node. */
  lemma {:induction false} InsertSize(t: Tree, value: int)
    ensures Size(InsertInto(t, value)) == Size(t) + 1
  {
    match t
    case Empty =>
    case Branch(v, l, r) =>
      if value < v { InsertSize(l, value); }
      else { InsertSize(r, value); }
  }

  /** The set of distinct values gains the inserted one. */
  lemma {:induction false} InsertKeys(t: Tree, value: int)
    ensures Keys(InsertInto(t, value)) == Keys(t) + {value}
  {
    match t
    case Empty =>
    case Branch(v, l, r) =>
      if value < v { InsertKeys(l, value); }
      else { InsertKeys(r, value); }
  }

  lemma {:induction false} InsertPreservesOrder(t: Tree, value: int)
    requires IsOrdered(t)
    ensures IsOrdered(InsertInto(t, value))
  {
    match t
    case Empty =>
    case Branch(v, l, r) =>
      if value < v {
        InsertPreservesOrder(l, value);
        InsertKeys(l, value);
      } else {
        InsertPreservesOrder(r, value);
        InsertKeys(r, value);
      }
  }

  /** A tree built by insertions is ordered and holds exactly the inserted values. */
  lemma {:induction false} BuildContents(values: seq<int>)
    ensures IsOrdered(Build(values))
    ensures Values(Build(values)) == multiset(values)
    ensures Size(Build(values)) == |values|
  {
    if values != [] {
      var init, last := values[..|values| - 1], values[|values| - 1];
      BuildContents(init);
      InsertPreservesOrder(Build(init), last);
      InsertValues(Build(init), last);
      InsertSize(Build(init), last);
      assert values == init + [last];
    }
  }

  // ---------------------------------------------------------------------
  // Traversals
  // ---------------------------------------------------------------------

  /** Multiset union is commutative; stated once so the solver need not search for it. */
  lemma Rearrange(a: multiset<int>, b: multiset<int>, c: multiset<int>)
    ensures b + a + c == a + b + c
    ensures a + c + b == a + b + c
  {
  }

  /** In-order lists each stored value once per occurrence. */
  lemma {:induction false} InorderContents(t: Tree)
    requires t.Branch?
    ensures multiset(InorderOf(t)) == Values(t)
  {
    if t.left.Branch? { InorderContents(t.left); }
    if t.right.Branch? { InorderContents(t.right); }
  }

  /** Pre-order lists each stored value once per occurrence. */
  lemma {:induction false} PreorderContents(t: Tree)
    requires t.Branch?
    ensures multiset(PreorderOf(t)) == Values(t)
  {
    var l := if t.left.Branch? then PreorderOf(t.left) else [];
    var r := if t.right.Branch? then PreorderOf(t.right) else [];
    if t.left.Branch? { PreorderContents(t.left); }
    if t.right.Branch? { PreorderContents(t.right); }
    assert multiset(l) == Values(t.left) && multiset(r) == Values(t.right);
    assert PreorderOf(t) == [t.value] + l + r;
    Rearrange(multiset(l), multiset{t.value}, multiset(r));
  }

  /** Post-order lists each stored value once per occurrence. */
  lemma {:induction false} PostorderContents(t: Tree)
    requires t.Branch?
    ensures multiset(PostorderOf(t)) == Values(t)
  {
    var l := if t.left.Branch? then PostorderOf(t.left) else [];
    var r := if t.right.Branch? then PostorderOf(t.right) else [];
    if t.left.Branch? { PostorderContents(t.left); }
    if t.right.Branch? { PostorderContents(t.right); }
    assert multiset(l) == Values(t.left) && multiset(r) == Values(t.right);
    assert PostorderOf(t) == l + r + [t.value];
    Rearrange(multiset(l), multiset{t.value}, multiset(r));
  }

  /** Each traversal has one entry per node. */
  lemma {:induction false} TraversalLengths(t: Tree)
    requires t.Branch?
    ensures |InorderOf(t)| == |PreorderOf(t)| == |PostorderOf(t)| == Size(t)
  {
    if t.left.Branch? { TraversalLengths(t.left); }
    if t.right.Branch? { TraversalLengths(t.right); }
  }

  /** The three listings hold the same values, each as often: they are permutations of one another. */
  lemma TraversalsArePermutations(t: Tree)
    requires t.Branch?
    ensures multiset(InorderOf(t)) == multiset(PreorderOf(t)) == multiset(PostorderOf(t))
  {
    InorderContents(t);
    PreorderContents(t);
    PostorderContents(t);
  }

  /** Pre-order visits the root first and post-order visits it last. */
  lemma RootPositions(t: Tree)
    requires t.Branch?
    ensures PreorderOf(t) != [] && PreorderOf(t)[0] == t.value
    ensures PostorderOf(t) != [] && PostorderOf(t)[|PostorderOf(t)| - 1] == t.value
  {
  }

  /** Every element of the in-order listing is a value of the tree. */
  lemma {:induction false} InorderMembers(t: Tree)
    requires t.Branch?
    ensures forall i :: 0 <= i < |InorderOf(t)| ==> InorderOf(t)[i] in Keys(t)
  {
    var left := if t.left.Branch? then InorderOf(t.left) else [];
    var right := if t.right.Branch? then InorderOf(t.right) else [];
    if t.left.Branch? { InorderMembers(t.left); }
    if t.right.Branch? { InorderMembers(t.right); }
    assert InorderOf(t) == left + [t.value] + right;
    forall i | 0 <= i < |InorderOf(t)|
      ensures InorderOf(t)[i] in Keys(t)
    {
      if i < |left| {
        assert InorderOf(t)[i] == left[i];
      } else if i > |left| {
        assert InorderOf(t)[i] == right[i - |left| - 1];
      }
    }
  }

  /** Joining two sorted runs around a pivot that separates them stays sorted. */
  lemma SortedJoin(a: seq<int>, v: int, b: seq<int>)
    requires Sorted(a) && Sorted(b)
    requires forall i :: 0 <= i < |a| ==> a[i] <= v
    requires forall i :: 0 <= i < |b| ==> v <= b[i]
    ensures Sorted(a + [v] + b)
  {
    var s := a + [v] + b;
    forall i, j | 0 <= i < j < |s|
      ensures s[i] <= s[j]
    {
      if j < |a| {
      } else if i < |a| {
        if j > |a| { assert s[j] == b[j - |a| - 1]; }
      } else if i == |a| {
        assert s[j] == b[j - |a| - 1];
      } else {
        assert s[i] == b[i - |a| - 1] && s[j] == b[j - |a| - 1];
      }
    }
  }

  /** The in-order listing of an ordered tree is non-decreasing. */
  lemma {:induction false} InorderSorted(t: Tree)
    requires t.Branch? && IsOrdered(t)
    ensures Sorted(InorderOf(t))
  {
    var left := if t.left.Branch? then InorderOf(t.left) else [];
    var right := if t.right.Branch? then InorderOf(t.right) else [];
    if t.left.Branch? {
      InorderSorted(t.left);
      InorderMembers(t.left);
    }
    if t.right.Branch? {
      InorderSorted(t.right);
      InorderMembers(t.right);
    }
    SortedJoin(left, t.value, right);
  }

  /** The in-order listing of a built tree is the inserted values, sorted. */
  lemma SortedPermutationOfInput(values: seq<int>)
    requires values != []
    ensures Build(values).Branch?
    ensures Sorted(InorderOf(Build(values)))
    ensures multiset(InorderOf(Build(values))) == multiset(values)
  {
    BuildContents(values);
    InorderSorted(Build(values));
    InorderContents(Build(values));
  }

  // ---------------------------------------------------------------------
  // The heap structure: `BinaryTree` over `Node` objects
  // ---------------------------------------------------------------------

  class BinaryTree {
    var root: Node?
    ghost var Repr: set<object>
    ghost var Model: Tree

    /** The tree owns its nodes, and they keep left < node <= right. */
    ghost predicate Valid()
      reads this, Repr
      ensures Valid() ==> this in Repr
    {
      && this in Repr
      && (root != null ==> root in Repr && root.Repr <= Repr && this !in root.Repr && root.Valid())
      && Repr == {this} + ReprOf(root)
      && Model == ModelOf(root)
      && IsOrdered(Model)
    }

    constructor ()
      ensures Valid() && fresh(Repr)
      ensures Model == Empty
    {
      root := null;
      Repr := {this};
      Model := Empty;
    }

    /** `inserir(valor)`: one more occurrence of `value`. */
    method Insert(value: int)
      requires Valid()
      modifies Repr
      ensures Valid() && fresh(Repr - old(Repr))
      ensures Model == InsertInto(old(Model), value)
    {
      InsertPreservesOrder(Model, value);
      if root == null {
        var leaf := new Node(value);
        root := leaf;
      } else {
        InsertAt(root, value);
      }
      Repr := {this} + root.Repr;
      Model := root.Model;
    }

    /** `_inserir_rec(no, valor)`: hangs a new leaf below `node`, in place. */
    static method InsertAt(node: Node, value: int)
      requires node.Valid()
      modifies node.Repr
      ensures node.Valid() && fresh(node.Repr - old(node.Repr))
      ensures node.Model == InsertInto(old(node.Model), value)
      decreases node.Repr
    {
      if value < node.value {
        if node.left == null {
          var leaf := new Node(value);
          node.SetLeft(leaf);
        } else {
          InsertAt(node.left, value);
          node.Reseal();
        }
      } else {
        if node.right == null {
          var leaf := new Node(value);
          node.SetRight(leaf);
        } else {
          InsertAt(node.right, value);
          node.Reseal();
        }
      }
    }

    /**
     * `inorder(no=None)`: a `null` argument stands for the root, which must
     * then exist (on an empty tree the source fails reading a child of `None`).
     */
    method Inorder(node: Node?) returns (s: seq<int>)
      requires Valid()
      requires node == null ==> root != null
      requires ValidOrNull(node)
      ensures s == InorderOf(if node == null then Model else node.Model)
      ensures node == null ==> Sorted(s) && multiset(s) == Values(Model)
      decreases if node == null then Repr else node.Repr
    {
      var n := if node == null then root else node;
      assert n.Valid() && n.Model == (if node == null then Model else node.Model);
      var left: seq<int> := [];
      if n.left != null {
        left := Inorder(n.left);
      }
      var right: seq<int> := [];
      if n.right != null {
        right := Inorder(n.right);
      }
      s := left + [n.value] + right;
      assert s == InorderOf(n.Model);
      if node == null {
        InorderSorted(Model);
        InorderContents(Model);
      }
    }

    /** `preorder(no=None)`. */
    method Preorder(node: Node?) returns (s: seq<int>)
      requires Valid()
      requires node == null ==> root != null
      requires ValidOrNull(node)
      ensures s == PreorderOf(if node == null then Model else node.Model)
      ensures node == null ==> multiset(s) == Values(Model)
      decreases if node == null then Repr else node.Repr
    {
      var n := if node == null then root else node;
      assert n.Valid() && n.Model == (if node == null then Model else node.Model);
      var left: seq<int> := [];
      if n.left != null {
        left := Preorder(n.left);
      }
      var right: seq<int> := [];
      if n.right != null {
        right := Preorder(n.right);
      }
      s := [n.value] + left + right;
      assert s == PreorderOf(n.Model);
      if node == null {
        PreorderContents(Model);
      }
    }

    /** `postorder(no=None)`. */
    method Postorder(node: Node?) returns (s: seq<int>)
      requires Valid()
      requires node == null ==> root != null
      requires ValidOrNull(node)
      ensures s == PostorderOf(if node == null then Model else node.Model)
      ensures node == null ==> multiset(s) == Values(Model)
      decreases if node == null then Repr else node.Repr
    {
      var n := if node == null then root else node;
      assert n.Valid() && n.Model == (if node == null then Model else node.Model);
      var left: seq<int> := [];
      if n.left != null {
        left := Postorder(n.left);
      }
      var right: seq<int> := [];
      if n.right != null {
        right := Postorder(n.right);
      }
      s := left + right + [n.value];
      assert s == PostorderOf(n.Model);
      if node == null {
        PostorderContents(Model);
      }
    }
  }
}
