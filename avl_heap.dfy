/**
 * The AVL tree of `atividade_4/valores_fixo/AVL.py` on heap nodes: `No`
 * objects whose `esquerda`, `direita` and `altura` fields are overwritten in
 * place, and the methods of `AVLTree`, which keep no state of their own and
 * therefore become module-level methods taking the subtree root.
 *
 * Every method is specified by the value-level function of `AvlTree` that
 * describes its effect on the ghost `Model` of the nodes it returns.
 */
module AvlHeap {
  import AvlTree
  import BinaryTrees

  /** `No`: `key`, `left`, `right` and `height` are `chave`, `esquerda`, `direita` and `altura`. */
  class Node {
    var key: int
    var left: Node?
    var right: Node?
    var height: int
    ghost var Repr: set<object>
    ghost var Model: AvlTree.Tree

    /**
     * The node owns its two subtrees exclusively (disjoint footprints that
     * do not contain it), and `Model` is the tree it denotes, cached heights
     * included.
     */
    ghost predicate Valid()
      reads this, Repr
      ensures Valid() ==> this in Repr && Model.Branch? && Model.key == key && Model.height == height
      decreases Repr
    {
      && this in Repr
      && (left != null ==>
            left in Repr && left.Repr <= Repr && this !in left.Repr && left.Valid())
      && (right != null ==>
            right in Repr && right.Repr <= Repr && this !in right.Repr && right.Valid())
      && (left != null && right != null ==> left.Repr !! right.Repr)
      && Model == AvlTree.Branch(key, if left == null then AvlTree.Empty else left.Model,
                                      if right == null then AvlTree.Empty else right.Model, height)
    }

    /** `No(chave)`: a leaf of height 1. */
    constructor (key: int)
      ensures Valid() && fresh(Repr)
      ensures Model == AvlTree.Branch(key, AvlTree.Empty, AvlTree.Empty, 1)
    {
      this.key := key;
      left := null;
      right := null;
      height := 1;
      Repr := {this};
      Model := AvlTree.Branch(key, AvlTree.Empty, AvlTree.Empty, 1);
    }

    /** `raiz.esquerda = l`, keeping the ghost footprint and model in step. */
    method SetLeft(l: Node?)
      requires ValidOrNull(l) && ValidOrNull(right)
      requires this !in ReprOf(l) && this !in ReprOf(right) && ReprOf(l) !! ReprOf(right)
      modifies this
      ensures Valid() && left == l && right == old(right) && key == old(key) && height == old(height)
      ensures Repr == {this} + ReprOf(l) + ReprOf(right)
      ensures Model == AvlTree.Branch(key, ModelOf(l), ModelOf(right), height)
    {
      left := l;
      Repr := {this} + ReprOf(l) + ReprOf(right);
      Model := AvlTree.Branch(key, ModelOf(l), ModelOf(right), height);
    }

    /** `raiz.direita = r`, keeping the ghost footprint and model in step. */
    method SetRight(r: Node?)
      requires ValidOrNull(left) && ValidOrNull(r)
      requires this !in ReprOf(left) && this !in ReprOf(r) && ReprOf(left) !! ReprOf(r)
      modifies this
      ensures Valid() && right == r && left == old(left) && key == old(key) && height == old(height)
      ensures Repr == {this} + ReprOf(left) + ReprOf(r)
      ensures Model == AvlTree.Branch(key, ModelOf(left), ModelOf(r), height)
    {
      right := r;
      Repr := {this} + ReprOf(left) + ReprOf(r);
      Model := AvlTree.Branch(key, ModelOf(left), ModelOf(r), height);
    }

    /** `no.altura = 1 + max(obter_altura(no.esquerda), obter_altura(no.direita))`. */
    method UpdateHeight()
      requires Valid()
      modifies this
      ensures Valid() && left == old(left) && right == old(right) && Repr == old(Repr)
      ensures Model == AvlTree.Reheight(old(Model))
    {
      height := 1 + BinaryTrees.Max(CachedHeightOf(left), CachedHeightOf(right));
      Model := AvlTree.Branch(key, ModelOf(left), ModelOf(right), height);
    }
  }

  /** The tree an optional node denotes; `null` is the empty tree. */
  ghost function ModelOf(n: Node?): AvlTree.Tree
    reads n
  {
    if n == null then AvlTree.Empty else n.Model
  }

  ghost function ReprOf(n: Node?): set<object>
    reads n
  {
    if n == null then {} else n.Repr
  }

  ghost predicate ValidOrNull(n: Node?)
    reads n, if n == null then {} else n.Repr
  {
    n != null ==> n.Valid()
  }

  /** `obter_altura(no)`: the cached height the model records, 0 for `None`. */
  function CachedHeightOf(n: Node?): (h: int)
    requires ValidOrNull(n)
    reads n, if n == null then {} else n.Repr
    ensures h == AvlTree.CachedHeight(ModelOf(n))
  {
    if n == null then 0 else n.height
  }

  /** `calcular_fator_balanceamento(no)`: the model's balance factor, 0 for `None`. */
  function BalanceOf(n: Node?): (b: int)
    requires ValidOrNull(n)
    reads n, if n == null then {} else n.Repr
    ensures b == AvlTree.BalanceFactor(ModelOf(n))
  {
    if n == null then 0 else CachedHeightOf(n.left) - CachedHeightOf(n.right)
  }

  /**
   * `_rotacao_direita(z)`: the returned node denotes the rotated tree and
   * owns only nodes `z` owned. The source writes `y.direita` before
   * `z.esquerda` and `z.altura`; here it comes after them. The heap is the
   * same: the write to `y.direita` is the only one moved, and it neither
   * reads nor is read by the two writes to `z`.
   */
  method RotateRight(z: Node) returns (y: Node)
    requires z.Valid() && z.left != null
    modifies z, z.left
    ensures y.Valid() && y.Repr <= old(z.Repr)
    ensures y.Model == AvlTree.RotateRight(old(z.Model))
  {
    y := z.left;
    var t3 := y.right;
    ghost var R, before := z.Repr, z.Model;
    assert y.Repr <= R && ReprOf(z.right) <= R;
    z.SetLeft(t3);
    z.UpdateHeight();
    assert z.Repr <= R && z.Model == AvlTree.Reheight(before.(left := before.left.right));
    y.SetRight(z);
    y.UpdateHeight();
  }

  /** `_rotacao_esquerda(z)`, the mirror image of `RotateRight`. */
  method RotateLeft(z: Node) returns (y: Node)
    requires z.Valid() && z.right != null
    modifies z, z.right
    ensures y.Valid() && y.Repr <= old(z.Repr)
    ensures y.Model == AvlTree.RotateLeft(old(z.Model))
  {
    y := z.right;
    var t2 := y.left;
    ghost var R, before := z.Repr, z.Model;
    assert y.Repr <= R && ReprOf(z.left) <= R;
    z.SetRight(t2);
    z.UpdateHeight();
    assert z.Repr <= R && z.Model == AvlTree.Reheight(before.(right := before.right.left));
    y.SetLeft(z);
    y.UpdateHeight();
  }

  /**
   * The left-right case of `inserir`: `raiz.esquerda` is rotated left in
   * place of itself, then `raiz` is rotated right.
   */
  method RotateLeftRight(raiz: Node) returns (r: Node)
    requires raiz.Valid() && raiz.Model.left.Branch? && raiz.Model.left.right.Branch?
    modifies raiz.Repr
    ensures r.Valid() && r.Repr <= old(raiz.Repr)
    ensures r.Model == AvlTree.RotateRight(old(raiz.Model).(left := AvlTree.RotateLeft(old(raiz.Model).left)))
  {
    ghost var before, R := raiz.Model, raiz.Repr;
    var l := RotateLeft(raiz.left);
    raiz.SetLeft(l);
    assert raiz.Repr <= R && raiz.Model == before.(left := AvlTree.RotateLeft(before.left));
    r := RotateRight(raiz);
  }

  /**
   * The right-left case of `inserir`: `raiz.direita` is rotated right in
   * place of itself, then `raiz` is rotated left.
   */
  method RotateRightLeft(raiz: Node) returns (r: Node)
    requires raiz.Valid() && raiz.Model.right.Branch? && raiz.Model.right.left.Branch?
    modifies raiz.Repr
    ensures r.Valid() && r.Repr <= old(raiz.Repr)
    ensures r.Model == AvlTree.RotateLeft(old(raiz.Model).(right := AvlTree.RotateRight(old(raiz.Model).right)))
  {
    ghost var before, R := raiz.Model, raiz.Repr;
    var rr := RotateRight(raiz.right);
    raiz.SetRight(rr);
    assert raiz.Repr <= R && raiz.Model == before.(right := AvlTree.RotateRight(before.right));
    r := RotateLeft(raiz);
  }

  /** Each rotation `Rebalance` may pick finds the child it rotates about. */
  ghost predicate RebalanceReady(grown: AvlTree.Tree, k: int)
  {
    && grown.Branch?
    && (AvlTree.BalanceFactor(grown) > 1 ==> grown.left.Branch?)
    && (AvlTree.BalanceFactor(grown) < -1 ==> grown.right.Branch?)
    && (AvlTree.Classify(grown, k) == AvlTree.DoubleLeftRight ==> grown.left.right.Branch?)
    && (AvlTree.Classify(grown, k) == AvlTree.DoubleRightLeft ==> grown.right.left.Branch?)
  }

  /** One step of `AvlTree.Insert` into the left subtree, as the heap method takes it. */
  lemma DescendLeft(raiz: AvlTree.Tree, k: int)
    requires AvlTree.IsAvl(raiz) && raiz.Branch? && k < raiz.key && k !in AvlTree.Keys(raiz)
    ensures AvlTree.IsAvl(raiz.left) && k !in AvlTree.Keys(raiz.left)
    ensures var grown := AvlTree.Reheight(raiz.(left := AvlTree.Insert(raiz.left, k)));
      RebalanceReady(grown, k) && AvlTree.Insert(raiz, k) == AvlTree.Rebalance(grown, k)
  {
    AvlTree.LeftInsertRebalances(raiz, k, AvlTree.Insert(raiz.left, k));
  }

  /** One step of `AvlTree.Insert` into the right subtree, as the heap method takes it. */
  lemma DescendRight(raiz: AvlTree.Tree, k: int)
    requires AvlTree.IsAvl(raiz) && raiz.Branch? && raiz.key < k && k !in AvlTree.Keys(raiz)
    ensures AvlTree.IsAvl(raiz.right) && k !in AvlTree.Keys(raiz.right)
    ensures var grown := AvlTree.Reheight(raiz.(right := AvlTree.Insert(raiz.right, k)));
      RebalanceReady(grown, k) && AvlTree.Insert(raiz, k) == AvlTree.Rebalance(grown, k)
  {
    AvlTree.RightInsertRebalances(raiz, k, AvlTree.Insert(raiz.right, k));
  }

  /**
   * The tail of `inserir`: recompute the height of `raiz`, then test the four
   * cases in the source's order and apply the first that matches.
   */
  method Rebalance(raiz: Node, key: int) returns (r: Node)
    requires raiz.Valid()
    requires RebalanceReady(AvlTree.Reheight(raiz.Model), key)
    modifies raiz.Repr
    ensures r.Valid() && r.Repr <= old(raiz.Repr)
    ensures r.Model == AvlTree.Rebalance(AvlTree.Reheight(old(raiz.Model)), key)
  {
    raiz.UpdateHeight();
    ghost var grown := raiz.Model;
    var balance := BalanceOf(raiz);
    if balance > 1 && key < raiz.left.key {
      assert AvlTree.Classify(grown, key) == AvlTree.SingleRight;
      r := RotateRight(raiz);
      return;
    }
    if balance < -1 && key > raiz.right.key {
      assert AvlTree.Classify(grown, key) == AvlTree.SingleLeft;
      r := RotateLeft(raiz);
      return;
    }
    if balance > 1 && key > raiz.left.key {
      assert AvlTree.Classify(grown, key) == AvlTree.DoubleLeftRight;
      r := RotateLeftRight(raiz);
      return;
    }
    if balance < -1 && key < raiz.right.key {
      assert AvlTree.Classify(grown, key) == AvlTree.DoubleRightLeft;
      r := RotateRightLeft(raiz);
      return;
    }
    r := raiz;
  }

  /**
   * `inserir(raiz, chave)` for a key not yet in the tree: the returned root
   * denotes `AvlTree.Insert` of the old tree, so it is again an AVL tree
   * holding one more key.
   */
  method Insert(raiz: Node?, key: int) returns (r: Node)
    requires ValidOrNull(raiz)
    requires AvlTree.IsAvl(ModelOf(raiz)) && key !in AvlTree.Keys(ModelOf(raiz))
    modifies ReprOf(raiz)
    ensures r.Valid() && fresh(r.Repr - old(ReprOf(raiz)))
    ensures r.Model == AvlTree.Insert(old(ModelOf(raiz)), key)
    ensures AvlTree.IsAvl(r.Model) && AvlTree.Keys(r.Model) == AvlTree.Keys(old(ModelOf(raiz))) + {key}
    decreases ReprOf(raiz), 1
  {
    if raiz == null {
      r := new Node(key);
      return;
    }
    ghost var before := raiz.Model;
    if key < raiz.key {
      DescendLeft(before, key);
      InsertIntoLeft(raiz, key);
    } else {
      DescendRight(before, key);
      InsertIntoRight(raiz, key);
    }
    r := Rebalance(raiz, key);
  }

  /** `raiz.esquerda = self.inserir(raiz.esquerda, chave)`. */
  method InsertIntoLeft(raiz: Node, key: int)
    requires raiz.Valid() && AvlTree.IsAvl(raiz.Model.left) && key !in AvlTree.Keys(raiz.Model.left)
    modifies raiz.Repr
    ensures raiz.Valid() && fresh(raiz.Repr - old(raiz.Repr))
    ensures raiz.Model == old(raiz.Model).(left := AvlTree.Insert(old(raiz.Model).left, key))
    decreases raiz.Repr, 0
  {
    ghost var R := raiz.Repr;
    assert raiz !in ReprOf(raiz.left) + ReprOf(raiz.right) && ReprOf(raiz.left) !! ReprOf(raiz.right);
    assert ReprOf(raiz.left) + ReprOf(raiz.right) <= R;
    var l := Insert(raiz.left, key);
    raiz.SetLeft(l);
  }

  /** `raiz.direita = self.inserir(raiz.direita, chave)`. */
  method InsertIntoRight(raiz: Node, key: int)
    requires raiz.Valid() && AvlTree.IsAvl(raiz.Model.right) && key !in AvlTree.Keys(raiz.Model.right)
    modifies raiz.Repr
    ensures raiz.Valid() && fresh(raiz.Repr - old(raiz.Repr))
    ensures raiz.Model == old(raiz.Model).(right := AvlTree.Insert(old(raiz.Model).right, key))
    decreases raiz.Repr, 0
  {
    ghost var R := raiz.Repr;
    assert raiz !in ReprOf(raiz.left) + ReprOf(raiz.right) && ReprOf(raiz.left) !! ReprOf(raiz.right);
    assert ReprOf(raiz.left) + ReprOf(raiz.right) <= R;
    var rr := Insert(raiz.right, key);
    raiz.SetRight(rr);
  }
}
