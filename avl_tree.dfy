/**
 * The AVL tree of `atividade_4/valores_fixo/AVL.py`, as values.
 *
 * A node (`No`) caches its own height (`altura`): an absent child counts as
 * height 0 and a fresh leaf has height 1. `inserir` descends like a search
 * tree, recomputes the cached height on the way back up and, when the
 * balance factor leaves [-1, 1], applies one of the four classic rotations,
 * chosen by comparing the new key with the heavy child's key.
 *
 * This module gives the meaning of every step as a function on `Tree` and
 * proves that insertion of an absent key keeps the tree an AVL tree. The
 * module `AvlHeap` performs the same steps on heap nodes in place.
 */
module AvlTree {
  import BinaryTrees

  /** `Branch(key, left, right, height)` is a `No` with its cached `altura`. */
  datatype Tree = Empty | Branch(key: int, left: Tree, right: Tree, height: int)

  // ---------------------------------------------------------------------
  // The source's own height bookkeeping
  // ---------------------------------------------------------------------

  /** `obter_altura`: the cached height, 0 for an absent node. */
  function CachedHeight(t: Tree): int
  {
    if t.Empty? then 0 else t.height
  }

  /** `calcular_fator_balanceamento`: left minus right cached height, 0 for an absent node. */
  function BalanceFactor(t: Tree): int
  {
    if t.Empty? then 0 else CachedHeight(t.left) - CachedHeight(t.right)
  }

  /** `no.altura = 1 + max(obter_altura(no.esquerda), obter_altura(no.direita))`. */
  function Reheight(t: Tree): Tree
    requires t.Branch?
  {
    t.(height := 1 + BinaryTrees.Max(CachedHeight(t.left), CachedHeight(t.right)))
  }

  // ---------------------------------------------------------------------
  // Reference definitions: what the cached data is supposed to mean
  // ---------------------------------------------------------------------

  /** The true height: the number of nodes on the longest downward path. */
  function Height(t: Tree): nat
  {
    match t
    case Empty => 0
    case Branch(_, l, r, _) => 1 + BinaryTrees.Max(Height(l), Height(r))
  }

  function Size(t: Tree): nat
  {
    match t
    case Empty => 0
    case Branch(_, l, r, _) => Size(l) + 1 + Size(r)
  }

  function Keys(t: Tree): set<int>
  {
    match t
    case Empty => {}
    case Branch(k, l, r, _) => Keys(l) + {k} + Keys(r)
  }

  /** The keys in symmetric order. */
  function Inorder(t: Tree): seq<int>
  {
    match t
    case Empty => []
    case Branch(k, l, r, _) => Inorder(l) + [k] + Inorder(r)
  }

  /** Strict search-tree order: smaller keys to the left, larger to the right. */
  ghost predicate IsBst(t: Tree)
  {
    match t
    case Empty => true
    case Branch(k, l, r, _) =>
      && IsBst(l) && IsBst(r)
      && (forall x :: x in Keys(l) ==> x < k)
      && (forall x :: x in Keys(r) ==> k < x)
  }

  /** Every cached height is 1 + the larger cached height of the children. */
  ghost predicate HeightsCorrect(t: Tree)
  {
    match t
    case Empty => true
    case Branch(_, l, r, h) =>
      HeightsCorrect(l) && HeightsCorrect(r) && h == 1 + BinaryTrees.Max(CachedHeight(l), CachedHeight(r))
  }

  /** Every balance factor lies in [-1, 1]. */
  ghost predicate Balanced(t: Tree)
  {
    match t
    case Empty => true
    case Branch(_, l, r, _) => Balanced(l) && Balanced(r) && -1 <= BalanceFactor(t) <= 1
  }

  /** The self-balancing search tree the class documents. */
  ghost predicate IsAvl(t: Tree)
  {
    IsBst(t) && HeightsCorrect(t) && Balanced(t)
  }

  /** With correct caches, `obter_altura` is the true height. */
  lemma {:induction false} CachedHeightIsHeight(t: Tree)
    requires HeightsCorrect(t)
    ensures CachedHeight(t) == Height(t)
  {
    match t
    case Empty =>
    case Branch(_, l, r, _) =>
      CachedHeightIsHeight(l);
      CachedHeightIsHeight(r);
  }

  /**
   * With correct caches below a node, a balance factor above 1 (below -1)
   * implies a left (right) child, so the case tests of `inserir` never read
   * the key of an absent child.
   */
  lemma HeavySideNonEmpty(t: Tree)
    requires t.Branch? && HeightsCorrect(t.left) && HeightsCorrect(t.right)
    ensures BalanceFactor(t) > 1 ==> t.left.Branch?
    ensures BalanceFactor(t) < -1 ==> t.right.Branch?
  {
    CachedHeightIsHeight(t.left);
    CachedHeightIsHeight(t.right);
  }

  // ---------------------------------------------------------------------
  // Rotations
  // ---------------------------------------------------------------------

  /**
   * `_rotacao_direita(z)`: the left child `y` becomes the root, `z` its right
   * child, and `y`'s old right subtree becomes `z`'s left; `z`'s height is
   * recomputed before `y`'s.
   */
  function RotateRight(z: Tree): Tree
    requires z.Branch? && z.left.Branch?
  {
    var y := z.left;
    var z' := Reheight(z.(left := y.right));
    Reheight(y.(right := z'))
  }

  /** `_rotacao_esquerda(z)`: the mirror image of `RotateRight`. */
  function RotateLeft(z: Tree): Tree
    requires z.Branch? && z.right.Branch?
  {
    var y := z.right;
    var z' := Reheight(z.(right := y.left));
    Reheight(y.(left := z'))
  }

  /** Regrouping a five-part concatenation. */
  lemma Regroup(a: seq<int>, x: seq<int>, b: seq<int>, y: seq<int>, c: seq<int>)
    ensures a + x + (b + y + c) == (a + x + b) + y + c
  {
  }

  /** A right rotation keeps the symmetric order of the keys. */
  lemma RotateRightInorder(z: Tree)
    requires z.Branch? && z.left.Branch?
    ensures Inorder(RotateRight(z)) == Inorder(z)
  {
    var Branch(kz, y, c, _) := z;
    var Branch(ky, a, b, _) := y;
    assert Inorder(RotateRight(z)) == Inorder(a) + [ky] + (Inorder(b) + [kz] + Inorder(c));
    Regroup(Inorder(a), [ky], Inorder(b), [kz], Inorder(c));
  }

  /** A left rotation keeps the symmetric order of the keys. */
  lemma RotateLeftInorder(z: Tree)
    requires z.Branch? && z.right.Branch?
    ensures Inorder(RotateLeft(z)) == Inorder(z)
  {
    var Branch(kz, a, y, _) := z;
    var Branch(ky, b, c, _) := y;
    assert Inorder(RotateLeft(z)) == (Inorder(a) + [kz] + Inorder(b)) + [ky] + Inorder(c);
    Regroup(Inorder(a), [kz], Inorder(b), [ky], Inorder(c));
  }

  /** A right rotation keeps the key set. */
  lemma RotateRightKeys(z: Tree)
    requires z.Branch? && z.left.Branch?
    ensures Keys(RotateRight(z)) == Keys(z)
  {
    var Branch(kz, y, c, _) := z;
    var Branch(ky, a, b, _) := y;
    assert Keys(RotateRight(z)) == Keys(a) + {ky} + Keys(b) + {kz} + Keys(c);
  }

  /** A right rotation keeps the search-tree order. */
  lemma RotateRightKeepsOrder(z: Tree)
    requires z.Branch? && z.left.Branch? && IsBst(z)
    ensures IsBst(RotateRight(z))
  {
    var Branch(kz, y, c, _) := z;
    var Branch(ky, a, b, _) := y;
    var z' := Branch(kz, b, c, 1 + BinaryTrees.Max(CachedHeight(b), CachedHeight(c)));
    assert RotateRight(z) == Branch(ky, a, z', 1 + BinaryTrees.Max(CachedHeight(a), CachedHeight(z')));
    assert ky in Keys(y);
    assert forall x :: x in Keys(b) ==> x in Keys(y);
    assert IsBst(z');
  }

  /** A left rotation keeps the key set. */
  lemma RotateLeftKeys(z: Tree)
    requires z.Branch? && z.right.Branch?
    ensures Keys(RotateLeft(z)) == Keys(z)
  {
    var Branch(kz, a, y, _) := z;
    var Branch(ky, b, c, _) := y;
    assert Keys(RotateLeft(z)) == Keys(a) + {kz} + Keys(b) + {ky} + Keys(c);
  }

  /** A left rotation keeps the search-tree order. */
  lemma RotateLeftKeepsOrder(z: Tree)
    requires z.Branch? && z.right.Branch? && IsBst(z)
    ensures IsBst(RotateLeft(z))
  {
    var Branch(kz, a, y, _) := z;
    var Branch(ky, b, c, _) := y;
    var z' := Branch(kz, a, b, 1 + BinaryTrees.Max(CachedHeight(a), CachedHeight(b)));
    assert RotateLeft(z) == Branch(ky, z', c, 1 + BinaryTrees.Max(CachedHeight(z'), CachedHeight(c)));
    assert ky in Keys(y);
    assert forall x :: x in Keys(b) ==> x in Keys(y);
    assert IsBst(z');
  }

  // ---------------------------------------------------------------------
  // Case selection and rebalancing (the tail of `inserir`)
  // ---------------------------------------------------------------------

  /** The four rotation cases of `inserir`, or none. */
  datatype Fix = Keep | SingleRight | SingleLeft | DoubleLeftRight | DoubleRightLeft

  /**
   * The chain of tests of `inserir`, in the source's order. The source reads
   * the heavy child's key, so it demands that child exist.
   */
  function Classify(raiz: Tree, k: int): Fix
    requires raiz.Branch?
    requires BalanceFactor(raiz) > 1 ==> raiz.left.Branch?
    requires BalanceFactor(raiz) < -1 ==> raiz.right.Branch?
  {
    var balance := BalanceFactor(raiz);
    if balance > 1 && k < raiz.left.key then SingleRight
    else if balance < -1 && k > raiz.right.key then SingleLeft
    else if balance > 1 && k > raiz.left.key then DoubleLeftRight
    else if balance < -1 && k < raiz.right.key then DoubleRightLeft
    else Keep
  }

  /**
   * Applies the selected case. In a double rotation the inner rotation
   * replaces the child first; the outer one recomputes the stale height of
   * `raiz`.
   */
  function Rebalance(raiz: Tree, k: int): Tree
    requires raiz.Branch?
    requires BalanceFactor(raiz) > 1 ==> raiz.left.Branch?
    requires BalanceFactor(raiz) < -1 ==> raiz.right.Branch?
    requires Classify(raiz, k) == DoubleLeftRight ==> raiz.left.right.Branch?
    requires Classify(raiz, k) == DoubleRightLeft ==> raiz.right.left.Branch?
  {
    match Classify(raiz, k)
    case Keep => raiz
    case SingleRight => RotateRight(raiz)
    case SingleLeft => RotateLeft(raiz)
    case DoubleLeftRight => RotateRight(raiz.(left := RotateLeft(raiz.left)))
    case DoubleRightLeft => RotateLeft(raiz.(right := RotateRight(raiz.right)))
  }

  /**
   * The left-left case: a node two levels heavier on the left whose left
   * child leans left becomes balanced by one right rotation, one level lower.
   */
  lemma LeftLeftFix(n: Tree)
    requires n.Branch? && n.left.Branch?
    requires IsBst(n) && HeightsCorrect(n.left) && HeightsCorrect(n.right)
    requires Balanced(n.left) && Balanced(n.right)
    requires BalanceFactor(n) == 2 && BalanceFactor(n.left) == 1
    ensures IsAvl(RotateRight(n)) && Keys(RotateRight(n)) == Keys(n)
    ensures CachedHeight(RotateRight(n)) == CachedHeight(n.left)
  {
    RotateRightKeys(n);
    RotateRightKeepsOrder(n);
    CachedHeightIsHeight(n.left.left);
    CachedHeightIsHeight(n.left.right);
    CachedHeightIsHeight(n.right);
  }

  /** The right-right case, mirror of `LeftLeftFix`. */
  lemma RightRightFix(n: Tree)
    requires n.Branch? && n.right.Branch?
    requires IsBst(n) && HeightsCorrect(n.left) && HeightsCorrect(n.right)
    requires Balanced(n.left) && Balanced(n.right)
    requires BalanceFactor(n) == -2 && BalanceFactor(n.right) == -1
    ensures IsAvl(RotateLeft(n)) && Keys(RotateLeft(n)) == Keys(n)
    ensures CachedHeight(RotateLeft(n)) == CachedHeight(n.right)
  {
    RotateLeftKeys(n);
    RotateLeftKeepsOrder(n);
    CachedHeightIsHeight(n.right.left);
    CachedHeightIsHeight(n.right.right);
    CachedHeightIsHeight(n.left);
  }

  /**
   * The left-right case: when the heavy left child leans right, its right
   * child exists, and a left rotation of the child followed by a right
   * rotation of the node balances it, one level lower.
   */
  lemma LeftRightFix(n: Tree)
    requires n.Branch? && n.left.Branch?
    requires IsBst(n) && HeightsCorrect(n.left) && HeightsCorrect(n.right)
    requires Balanced(n.left) && Balanced(n.right)
    requires BalanceFactor(n) == 2 && BalanceFactor(n.left) == -1
    ensures n.left.right.Branch?
    ensures IsAvl(RotateRight(n.(left := RotateLeft(n.left))))
    ensures Keys(RotateRight(n.(left := RotateLeft(n.left)))) == Keys(n)
    ensures CachedHeight(RotateRight(n.(left := RotateLeft(n.left)))) == CachedHeight(n.left)
  {
    var y := n.left;
    CachedHeightIsHeight(y.left);
    CachedHeightIsHeight(y.right);
    CachedHeightIsHeight(n.right);
    var x := y.right;
    CachedHeightIsHeight(x.left);
    CachedHeightIsHeight(x.right);
    LeftRightKeepsOrder(n);
  }

  /** The left-right double rotation keeps the key set and the search-tree order. */
  lemma LeftRightKeepsOrder(n: Tree)
    requires n.Branch? && n.left.Branch? && n.left.right.Branch? && IsBst(n)
    ensures Keys(RotateRight(n.(left := RotateLeft(n.left)))) == Keys(n)
    ensures IsBst(RotateRight(n.(left := RotateLeft(n.left))))
  {
    var y := n.left;
    RotateLeftKeys(y);
    RotateLeftKeepsOrder(y);
    var n' := n.(left := RotateLeft(y));
    assert IsBst(n');
    RotateRightKeys(n');
    RotateRightKeepsOrder(n');
  }

  /** The right-left case, mirror of `LeftRightFix`. */
  lemma RightLeftFix(n: Tree)
    requires n.Branch? && n.right.Branch?
    requires IsBst(n) && HeightsCorrect(n.left) && HeightsCorrect(n.right)
    requires Balanced(n.left) && Balanced(n.right)
    requires BalanceFactor(n) == -2 && BalanceFactor(n.right) == 1
    ensures n.right.left.Branch?
    ensures IsAvl(RotateLeft(n.(right := RotateRight(n.right))))
    ensures Keys(RotateLeft(n.(right := RotateRight(n.right)))) == Keys(n)
    ensures CachedHeight(RotateLeft(n.(right := RotateRight(n.right)))) == CachedHeight(n.right)
  {
    var y := n.right;
    CachedHeightIsHeight(y.left);
    CachedHeightIsHeight(y.right);
    CachedHeightIsHeight(n.left);
    var x := y.left;
    CachedHeightIsHeight(x.left);
    CachedHeightIsHeight(x.right);
    RightLeftKeepsOrder(n);
  }

  /** The right-left double rotation keeps the key set and the search-tree order. */
  lemma RightLeftKeepsOrder(n: Tree)
    requires n.Branch? && n.right.Branch? && n.right.left.Branch? && IsBst(n)
    ensures Keys(RotateLeft(n.(right := RotateRight(n.right)))) == Keys(n)
    ensures IsBst(RotateLeft(n.(right := RotateRight(n.right))))
  {
    var y := n.right;
    RotateRightKeys(y);
    RotateRightKeepsOrder(y);
    var n' := n.(right := RotateRight(y));
    assert IsBst(n');
    RotateLeftKeys(n');
    RotateLeftKeepsOrder(n');
  }

  // ---------------------------------------------------------------------
  // Insertion
  // ---------------------------------------------------------------------

  /**
   * What one level of `inserir` guarantees to its caller: an AVL tree with
   * the key added, at most one level taller, and, when taller, the same root
   * leaning towards the side the key went to.
   */
  ghost predicate InsertedInto(before: Tree, k: int, after: Tree)
  {
    && IsAvl(after) && after.Branch?
    && Keys(after) == Keys(before) + {k}
    && CachedHeight(before) <= CachedHeight(after) <= CachedHeight(before) + 1
    && (before.Branch? && CachedHeight(after) == CachedHeight(before) + 1 ==>
          after.key == before.key && BalanceFactor(after) == (if k < before.key then 1 else -1))
  }

  /**
   * After the key went into the left subtree, giving `l`: the case tests
   * are safe, the selected case is applicable, and the rebalanced node meets
   * `InsertedInto`; a rotation, when one happens, restores the old height.
   */
  lemma LeftInsertRebalances(raiz: Tree, k: int, l: Tree)
    requires IsAvl(raiz) && raiz.Branch? && k < raiz.key && k !in Keys(raiz)
    requires InsertedInto(raiz.left, k, l)
    ensures var grown := Reheight(raiz.(left := l));
      && -1 <= BalanceFactor(grown)
      && (BalanceFactor(grown) > 1 ==> grown.left.Branch?)
      && (Classify(grown, k) == DoubleLeftRight ==> grown.left.right.Branch?)
      && Classify(grown, k) != DoubleRightLeft
      && InsertedInto(raiz, k, Rebalance(grown, k))
      && (Classify(grown, k) != Keep ==> CachedHeight(Rebalance(grown, k)) == CachedHeight(raiz))
  {
    var grown := Reheight(raiz.(left := l));
    HeavySideNonEmpty(grown);
    CachedHeightIsHeight(raiz.left);
    CachedHeightIsHeight(raiz.right);
    assert IsBst(grown);
    if BalanceFactor(grown) > 1 {
      assert raiz.left.Branch? && l.key == raiz.left.key;
      assert raiz.left.key in Keys(raiz);
      if k < l.key {
        assert Classify(grown, k) == SingleRight;
        LeftLeftFix(grown);
      } else {
        assert Classify(grown, k) == DoubleLeftRight;
        LeftRightFix(grown);
      }
    } else {
      assert Classify(grown, k) == Keep;
    }
  }

  /** Mirror of `LeftInsertRebalances`, for a key that went right. */
  lemma RightInsertRebalances(raiz: Tree, k: int, r: Tree)
    requires IsAvl(raiz) && raiz.Branch? && raiz.key < k && k !in Keys(raiz)
    requires InsertedInto(raiz.right, k, r)
    ensures var grown := Reheight(raiz.(right := r));
      && BalanceFactor(grown) <= 1
      && (BalanceFactor(grown) < -1 ==> grown.right.Branch?)
      && (Classify(grown, k) == DoubleRightLeft ==> grown.right.left.Branch?)
      && Classify(grown, k) != DoubleLeftRight
      && InsertedInto(raiz, k, Rebalance(grown, k))
      && (Classify(grown, k) != Keep ==> CachedHeight(Rebalance(grown, k)) == CachedHeight(raiz))
  {
    var grown := Reheight(raiz.(right := r));
    HeavySideNonEmpty(grown);
    CachedHeightIsHeight(raiz.left);
    CachedHeightIsHeight(raiz.right);
    assert IsBst(grown);
    if BalanceFactor(grown) < -1 {
      assert raiz.right.Branch? && r.key == raiz.right.key;
      assert raiz.right.key in Keys(raiz);
      if k > r.key {
        assert Classify(grown, k) == SingleLeft;
        RightRightFix(grown);
      } else {
        assert Classify(grown, k) == DoubleRightLeft;
        RightLeftFix(grown);
      }
    } else {
      assert Classify(grown, k) == Keep;
    }
  }

  /**
   * `inserir(raiz, chave)` for a key not yet in the tree: the result is an
   * AVL tree holding the old keys and the new one, at most one level taller.
   */
  function Insert(raiz: Tree, k: int): (r: Tree)
    requires IsAvl(raiz) && k !in Keys(raiz)
    ensures InsertedInto(raiz, k, r)
    decreases raiz
  {
    if raiz.Empty? then Branch(k, Empty, Empty, 1)
    else if k < raiz.key then
      var l := Insert(raiz.left, k);
      LeftInsertRebalances(raiz, k, l);
      Rebalance(Reheight(raiz.(left := l)), k)
    else
      var r := Insert(raiz.right, k);
      RightInsertRebalances(raiz, k, r);
      Rebalance(Reheight(raiz.(right := r)), k)
  }

  /** Each insertion adds exactly one node. */
  lemma InsertSize(t: Tree, k: int)
    requires IsAvl(t) && k !in Keys(t)
    ensures Size(Insert(t, k)) == Size(t) + 1
  {
    KeysCountNodes(t);
    KeysCountNodes(Insert(t, k));
  }

  /** In a search tree the keys are distinct, so there are as many as nodes. */
  lemma {:induction false} KeysCountNodes(t: Tree)
    requires IsBst(t)
    ensures |Keys(t)| == Size(t)
  {
    match t
    case Empty =>
    case Branch(k, l, r, _) =>
      KeysCountNodes(l);
      KeysCountNodes(r);
      assert Keys(l) !! Keys(r) by {
        forall x | x in Keys(l) ensures x !in Keys(r) { }
      }
      assert k !in Keys(l) + Keys(r);
      calc {
        |Keys(t)|;
        |(Keys(l) + Keys(r)) + {k}|;
        |Keys(l) + Keys(r)| + 1;
        |Keys(l)| + |Keys(r)| + 1;
      }
  }

  /**
   * The rotations `inserir` announces while inserting `k`, innermost first:
   * the ghost counterpart of its `print` calls.
   */
  function Rotations(raiz: Tree, k: int): seq<Fix>
    requires IsAvl(raiz) && k !in Keys(raiz)
    decreases raiz
  {
    if raiz.Empty? then []
    else if k < raiz.key then
      var l := Insert(raiz.left, k);
      LeftInsertRebalances(raiz, k, l);
      var fix := Classify(Reheight(raiz.(left := l)), k);
      Rotations(raiz.left, k) + (if fix == Keep then [] else [fix])
    else
      var r := Insert(raiz.right, k);
      RightInsertRebalances(raiz, k, r);
      var fix := Classify(Reheight(raiz.(right := r)), k);
      Rotations(raiz.right, k) + (if fix == Keep then [] else [fix])
  }

  /**
   * One insertion performs at most one single or double rotation in the
   * whole tree: a rotation restores the subtree's old height, so no ancestor
   * becomes unbalanced.
   */
  lemma {:induction false} AtMostOneRotation(t: Tree, k: int)
    requires IsAvl(t) && k !in Keys(t)
    ensures |Rotations(t, k)| <= 1
    ensures Rotations(t, k) != [] ==> CachedHeight(Insert(t, k)) == CachedHeight(t)
  {
    if t.Branch? {
      if k < t.key {
        var l := Insert(t.left, k);
        LeftInsertRebalances(t, k, l);
        AtMostOneRotation(t.left, k);
        var grown := Reheight(t.(left := l));
        if Rotations(t.left, k) != [] {
          assert BalanceFactor(grown) == BalanceFactor(t);
          assert Classify(grown, k) == Keep;
        }
      } else {
        var r := Insert(t.right, k);
        RightInsertRebalances(t, k, r);
        AtMostOneRotation(t.right, k);
        var grown := Reheight(t.(right := r));
        if Rotations(t.right, k) != [] {
          assert BalanceFactor(grown) == BalanceFactor(t);
          assert Classify(grown, k) == Keep;
        }
      }
    }
  }

  // ---------------------------------------------------------------------
  // Height bound and the two demonstrations
  // ---------------------------------------------------------------------

  /**
   * Why the tree is "self-balancing": a balanced tree of height h holds at
   * least 2^(h/2) - 1 nodes, so its height is logarithmic in its size.
   */
  lemma {:induction false} BalancedHeightLogarithmic(t: Tree)
    requires HeightsCorrect(t) && Balanced(t)
    ensures BinaryTrees.Pow2(Height(t) / 2) <= Size(t) + 1
  {
    match t
    case Empty =>
    case Branch(_, l, r, _) =>
      BalancedHeightLogarithmic(l);
      BalancedHeightLogarithmic(r);
      CachedHeightIsHeight(l);
      CachedHeightIsHeight(r);
      var h := Height(t);
      if h >= 2 {
        BinaryTrees.Pow2Monotonic((h - 2) / 2, Height(l) / 2);
        BinaryTrees.Pow2Monotonic((h - 2) / 2, Height(r) / 2);
        assert BinaryTrees.Pow2(h / 2) == 2 * BinaryTrees.Pow2((h - 2) / 2);
      }
  }

  /** Under a lone leaf, a new key simply becomes a child, with no rotation. */
  lemma InsertBelowLeaf(k: int, j: int)
    requires j != k
    ensures Insert(Branch(k, Empty, Empty, 1), j)
         == if j < k then Branch(k, Branch(j, Empty, Empty, 1), Empty, 2)
            else Branch(k, Empty, Branch(j, Empty, Empty, 1), 2)
  {
  }

  /** Demonstration 1, first two steps: 10 becomes the root, 20 its right child. */
  lemma AscendingKeysGrow()
    ensures Insert(Empty, 10) == Branch(10, Empty, Empty, 1)
    ensures Insert(Branch(10, Empty, Empty, 1), 20) == Branch(10, Empty, Branch(20, Empty, Empty, 1), 2)
  {
    InsertBelowLeaf(10, 20);
  }

  /** Demonstration 1, last step: 30 unbalances the root, and one single left rotation puts 20 on top. */
  lemma AscendingKeysRotate()
    ensures Rotations(Branch(10, Empty, Branch(20, Empty, Empty, 1), 2), 30) == [SingleLeft]
    ensures Insert(Branch(10, Empty, Branch(20, Empty, Empty, 1), 2), 30)
         == Branch(20, Branch(10, Empty, Empty, 1), Branch(30, Empty, Empty, 1), 2)
  {
    InsertBelowLeaf(20, 30);
  }

  /** Demonstration 2, first two steps: 10 becomes the root, 30 its right child. */
  lemma ZigZagKeysGrow()
    ensures Insert(Empty, 10) == Branch(10, Empty, Empty, 1)
    ensures Insert(Branch(10, Empty, Empty, 1), 30) == Branch(10, Empty, Branch(30, Empty, Empty, 1), 2)
  {
    InsertBelowLeaf(10, 30);
  }

  /** Demonstration 2, last step: 20 unbalances the root, which is repaired by a right-left double rotation. */
  lemma ZigZagKeysRotate()
    ensures Rotations(Branch(10, Empty, Branch(30, Empty, Empty, 1), 2), 20) == [DoubleRightLeft]
  {
    InsertBelowLeaf(30, 20);
  }

  /** Demonstration 2, the resulting tree: 20 on top, 10 and 30 below it. */
  lemma ZigZagKeysResult()
    ensures Insert(Branch(10, Empty, Branch(30, Empty, Empty, 1), 2), 20)
         == Branch(20, Branch(10, Empty, Empty, 1), Branch(30, Empty, Empty, 1), 2)
  {
    InsertBelowLeaf(30, 20);
    var grown := Branch(10, Empty, Branch(30, Branch(20, Empty, Empty, 1), Empty, 2), 3);
    assert Classify(grown, 20) == DoubleRightLeft;
    assert RotateRight(grown.right) == Branch(20, Empty, Branch(30, Empty, Empty, 1), 2);
  }
}
