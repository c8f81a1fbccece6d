# Binary search trees, traversals and AVL insertion in Dafny

This project models the three tree exercises of the repository.

- **Strict binary search tree** (`atividade_2/ArvoreBuscaBinaria/ArvoreBuscaBinaria.py`), module `SearchTree`.
  - Insertion ignores a value that is already present.
  - Search descends by comparison.
  - Deletion replaces a node that has two children by its in-order successor.
  - Height counts edges: an empty tree has height -1.
  - Depth counts edges from the root and is -1 for an absent value.
- **Non-strict binary tree with traversals** (`atividade_3/Arvore_balanceada.py`), module `TraversalTree`.
  - Equal values go to the right.
  - In-order, pre-order and post-order listings are built by list concatenation.
- **AVL tree** (`atividade_4/valores_fixo/AVL.py`), modules `AvlTree` and `AvlHeap`.
  - Each node caches its height.
  - The balance factor is the left cached height minus the right one.
  - There are two single rotations.
  - `inserir` recomputes heights on the way back up and applies the first of the four rebalancing cases whose test holds.

Each source file is modelled twice.

- **Values.** A `datatype` tree with functions that give the meaning of every recursive helper. All properties are proved as lemmas about these functions.
- **Heap objects.** Classes over heap nodes whose fields are overwritten in place, as the source does. Each node carries a ghost footprint `Repr` and a ghost `Model`, the tree it currently denotes. Every mutating method is proved to change `Model` exactly as the corresponding function says.
- **Shared node.** Module `BinaryTrees` holds the plain `Node` (`value`, `left`, `right`) and its value tree. Both unbalanced trees use it: it models the `Node` of `ArvoreBuscaBinaria.py` and the `Node` of `Arvore_balanceada.py` (`valor`, `esquerda`, `direita`).
- **AVL nodes.** `AvlHeap.Node` is the AVL `No` (`chave`, `esquerda`, `direita`, `altura`, named `key`, `left`, `right`, `height` here).
- **`AVLTree` methods.** The source's `AVLTree` class has no fields, so its methods become module-level methods of `AvlHeap` that take the subtree root and return the new one.

## Model

| member | source | states |
|---|---|---|
| BinaryTrees.Node.constructor | atividade_2/ArvoreBuscaBinaria/ArvoreBuscaBinaria.py:5-9 | a new node holds the value and has no children |
| BinaryTrees.Node.SetLeft | atividade_2/ArvoreBuscaBinaria/ArvoreBuscaBinaria.py:25 | `current.left = ...` (also `no.esquerda = ...` in Arvore_balanceada.py): only the left link changes, the value stays, and the node then denotes the branch with the new left subtree |
| BinaryTrees.Node.SetRight | atividade_2/ArvoreBuscaBinaria/ArvoreBuscaBinaria.py:30 | `current.right = ...` (also `no.direita = ...` in Arvore_balanceada.py): only the right link changes, the value stays, and the node then denotes the branch with the new right subtree |
| SearchTree.InsertInto | atividade_2/ArvoreBuscaBinaria/ArvoreBuscaBinaria.py:22-32 | `_insert`: descends by comparison, hangs a new leaf where the search falls off the tree, and leaves the tree as it was for an equal value |
| SearchTree.SearchIn | atividade_2/ArvoreBuscaBinaria/ArvoreBuscaBinaria.py:37-45 | `_search`: true at a node holding the value, otherwise the answer of the subtree the comparison picks, false at an empty tree |
| SearchTree.MinValue | atividade_2/ArvoreBuscaBinaria/ArvoreBuscaBinaria.py:70-74 | `_min_value_node`: the value of the node reached by following left links from a non-empty tree |
| SearchTree.DeleteFrom | atividade_2/ArvoreBuscaBinaria/ArvoreBuscaBinaria.py:50-68 | `_delete`: descends by comparison; the matching node is dropped, replaced by its only child, or given its right subtree's minimum, which is then deleted from that subtree; an absent value changes nothing |
| SearchTree.HeightOf | atividade_2/ArvoreBuscaBinaria/ArvoreBuscaBinaria.py:79-82 | `_height`: -1 for an empty tree, otherwise 1 + the larger child height |
| SearchTree.DepthOf | atividade_2/ArvoreBuscaBinaria/ArvoreBuscaBinaria.py:87-95 | `_depth`: the starting depth at a node holding the value, -1 at an empty tree, otherwise the depth in the subtree the comparison picks, one step further |
| SearchTree.InsertKeys | atividade_2/ArvoreBuscaBinaria/ArvoreBuscaBinaria.py:22-32 | the value set after `_insert` is the old set plus the value |
| SearchTree.InsertPreservesBst | atividade_2/ArvoreBuscaBinaria/ArvoreBuscaBinaria.py:22-32 | `_insert` keeps left < node < right at every node |
| SearchTree.InsertUnchangedIffPresent | atividade_2/ArvoreBuscaBinaria/ArvoreBuscaBinaria.py:22-32 | in a search tree, insertion leaves the tree unchanged exactly when the value is already present (there is no equality branch) |
| SearchTree.InsertSize | atividade_2/ArvoreBuscaBinaria/ArvoreBuscaBinaria.py:16-32 | insertion adds one node for an absent value and none for a present one |
| SearchTree.SearchSound | atividade_2/ArvoreBuscaBinaria/ArvoreBuscaBinaria.py:37-45 | a `True` from `_search` always names a stored value, whatever the tree's order |
| SearchTree.SearchCorrect | atividade_2/ArvoreBuscaBinaria/ArvoreBuscaBinaria.py:34-45 | in a search tree, `search(v)` is true exactly when `v` is stored |
| SearchTree.MinValueIsMinimum | atividade_2/ArvoreBuscaBinaria/ArvoreBuscaBinaria.py:70-74 | the leftmost value is stored and, in a search tree, is the smallest |
| SearchTree.DeleteKeys | atividade_2/ArvoreBuscaBinaria/ArvoreBuscaBinaria.py:50-68 | the value set after `_delete(v)` is the old set minus `v`, and search-tree order is kept, including the successor copy |
| SearchTree.DeleteAbsent | atividade_2/ArvoreBuscaBinaria/ArvoreBuscaBinaria.py:50-56 | deleting an absent value returns the tree unchanged |
| SearchTree.DeleteSize | atividade_2/ArvoreBuscaBinaria/ArvoreBuscaBinaria.py:50-68 | deleting a present value removes exactly one node |
| SearchTree.SearchAfterUpdate | atividade_2/ArvoreBuscaBinaria/ArvoreBuscaBinaria.py:16-68 | after `insert(v)` search finds `v`; after `delete(v)` it does not |
| SearchTree.SearchOthersAfterUpdate | atividade_2/ArvoreBuscaBinaria/ArvoreBuscaBinaria.py:16-68 | inserting or deleting `v` leaves the search answer for every other value unchanged |
| SearchTree.HeightBounds | atividade_2/ArvoreBuscaBinaria/ArvoreBuscaBinaria.py:79-82 | height is -1 exactly for the empty tree, is below the node count, and a tree of height h has fewer than 2^(h+1) nodes |
| SearchTree.DepthSound | atividade_2/ArvoreBuscaBinaria/ArvoreBuscaBinaria.py:87-95 | a depth other than -1 names a stored value and lies between the starting depth and the starting depth plus the height |
| SearchTree.DepthCorrect | atividade_2/ArvoreBuscaBinaria/ArvoreBuscaBinaria.py:84-95 | in a search tree, `depth(v)` is -1 exactly when `v` is absent, and otherwise at most `height()` |
| SearchTree.DepthFound | atividade_2/ArvoreBuscaBinaria/ArvoreBuscaBinaria.py:87-95 | a present value is found at no less than the starting depth |
| SearchTree.DepthSteps | atividade_2/ArvoreBuscaBinaria/ArvoreBuscaBinaria.py:87-95 | the root has depth 0, and each step into the subtree holding the value adds one |
| SearchTree.DepthShift | atividade_2/ArvoreBuscaBinaria/ArvoreBuscaBinaria.py:87-95 | starting the count e higher shifts every found depth by e and leaves -1 alone |
| SearchTree.BinarySearchTree.constructor | atividade_2/ArvoreBuscaBinaria/ArvoreBuscaBinaria.py:13-14 | a new tree is empty |
| SearchTree.BinarySearchTree.Insert | atividade_2/ArvoreBuscaBinaria/ArvoreBuscaBinaria.py:16-20 | `insert` stores `_insert`'s tree, keeps the search-tree invariant, and the value set gains the value |
| SearchTree.BinarySearchTree.InsertAt | atividade_2/ArvoreBuscaBinaria/ArvoreBuscaBinaria.py:22-32 | `_insert` hangs the new leaf in place; the node then denotes the value-level insertion, and every object it newly owns is freshly allocated |
| SearchTree.BinarySearchTree.Search | atividade_2/ArvoreBuscaBinaria/ArvoreBuscaBinaria.py:34-35 | `search(v)` answers whether `v` is stored |
| SearchTree.BinarySearchTree.SearchAt | atividade_2/ArvoreBuscaBinaria/ArvoreBuscaBinaria.py:37-45 | `_search` walks the heap nodes and returns the value-level search result |
| SearchTree.BinarySearchTree.Delete | atividade_2/ArvoreBuscaBinaria/ArvoreBuscaBinaria.py:47-48 | `delete` keeps the invariant, and the value set loses the value |
| SearchTree.BinarySearchTree.DeleteAt | atividade_2/ArvoreBuscaBinaria/ArvoreBuscaBinaria.py:50-57 | `_delete` returns the new subtree root, denoting the value-level deletion, built only from nodes it already owned |
| SearchTree.BinarySearchTree.RemoveNode | atividade_2/ArvoreBuscaBinaria/ArvoreBuscaBinaria.py:57-68 | the node holding the value is dropped, replaced by its only child, or overwritten with its successor's value, which is then deleted from the right |
| SearchTree.BinarySearchTree.MinValueNode | atividade_2/ArvoreBuscaBinaria/ArvoreBuscaBinaria.py:70-74 | the loop stops at a node of the subtree with no left child, holding the subtree's leftmost value |
| SearchTree.BinarySearchTree.Height | atividade_2/ArvoreBuscaBinaria/ArvoreBuscaBinaria.py:76-77 | `height()` is the height of the current tree |
| SearchTree.BinarySearchTree.HeightAt | atividade_2/ArvoreBuscaBinaria/ArvoreBuscaBinaria.py:79-82 | `_height` on heap nodes computes the value-level height |
| SearchTree.BinarySearchTree.Depth | atividade_2/ArvoreBuscaBinaria/ArvoreBuscaBinaria.py:84-85 | `depth(v)` is -1 exactly when `v` is absent |
| SearchTree.BinarySearchTree.DepthAt | atividade_2/ArvoreBuscaBinaria/ArvoreBuscaBinaria.py:87-95 | `_depth` on heap nodes computes the value-level depth |
| TraversalTree.InsertInto | atividade_3/Arvore_balanceada.py:22-32 | `_inserir_rec`: smaller values descend left, all others (equal ones included) right, and a new leaf hangs where the descent falls off the tree |
| TraversalTree.Build | atividade_3/Arvore_balanceada.py:16-20 | the tree that repeated `inserir` builds from an empty tree, one value after another in list order |
| TraversalTree.InorderOf | atividade_3/Arvore_balanceada.py:35-39 | `inorder` of a non-empty tree: the left listing, the node's value, then the right listing |
| TraversalTree.PreorderOf | atividade_3/Arvore_balanceada.py:41-46 | `preorder` of a non-empty tree: the node's value, then the left and the right listings |
| TraversalTree.PostorderOf | atividade_3/Arvore_balanceada.py:48-52 | `postorder` of a non-empty tree: the left and the right listings, then the node's value |
| TraversalTree.InsertValues | atividade_3/Arvore_balanceada.py:22-32 | each insertion adds one occurrence of the value, duplicates included |
| TraversalTree.InsertSize | atividade_3/Arvore_balanceada.py:22-32 | each insertion adds exactly one node |
| TraversalTree.InsertKeys | atividade_3/Arvore_balanceada.py:22-32 | the set of stored values gains the inserted value |
| TraversalTree.InsertPreservesOrder | atividade_3/Arvore_balanceada.py:22-32 | insertion keeps left < node <= right at every node |
| TraversalTree.BuildContents | atividade_3/Arvore_balanceada.py:16-32 | a tree built by repeated `inserir` is ordered, holds exactly the inserted values with their multiplicities, and has one node per insertion |
| TraversalTree.InorderContents | atividade_3/Arvore_balanceada.py:35-39 | `inorder` lists every stored value as often as it occurs |
| TraversalTree.PreorderContents | atividade_3/Arvore_balanceada.py:41-46 | `preorder` lists every stored value as often as it occurs |
| TraversalTree.PostorderContents | atividade_3/Arvore_balanceada.py:48-52 | `postorder` lists every stored value as often as it occurs |
| TraversalTree.TraversalLengths | atividade_3/Arvore_balanceada.py:35-52 | the three listings have one entry per node |
| TraversalTree.TraversalsArePermutations | atividade_3/Arvore_balanceada.py:35-52 | the three listings are permutations of one another |
| TraversalTree.RootPositions | atividade_3/Arvore_balanceada.py:41-52 | `preorder` starts with the root value and `postorder` ends with it |
| TraversalTree.InorderMembers | atividade_3/Arvore_balanceada.py:35-39 | every entry of `inorder` is a stored value |
| TraversalTree.InorderSorted | atividade_3/Arvore_balanceada.py:35-39 | on an ordered tree `inorder` is non-decreasing |
| TraversalTree.SortedPermutationOfInput | atividade_3/Arvore_balanceada.py:16-39 | `inorder` of a tree built from a non-empty list is that list, sorted |
| TraversalTree.BinaryTree.constructor | atividade_3/Arvore_balanceada.py:13-14 | a new tree is empty |
| TraversalTree.BinaryTree.Insert | atividade_3/Arvore_balanceada.py:16-20 | `inserir` stores the value-level insertion and keeps the order invariant |
| TraversalTree.BinaryTree.InsertAt | atividade_3/Arvore_balanceada.py:22-32 | `_inserir_rec` hangs a new leaf in place below the node |
| TraversalTree.BinaryTree.Inorder | atividade_3/Arvore_balanceada.py:35-39 | returns the in-order listing; from the root it is sorted and a permutation of the stored values |
| TraversalTree.BinaryTree.Preorder | atividade_3/Arvore_balanceada.py:41-46 | returns the pre-order listing; from the root it is a permutation of the stored values |
| TraversalTree.BinaryTree.Postorder | atividade_3/Arvore_balanceada.py:48-52 | returns the post-order listing; from the root it is a permutation of the stored values |
| AvlTree.CachedHeight | atividade_4/valores_fixo/AVL.py:15-19 | `obter_altura`: the height stored in the node, 0 for an absent node |
| AvlTree.BalanceFactor | atividade_4/valores_fixo/AVL.py:21-25 | `calcular_fator_balanceamento`: the left child's cached height minus the right one's, 0 for an absent node |
| AvlTree.Reheight | atividade_4/valores_fixo/AVL.py:58 | `raiz.altura = 1 + max(...)`: the node's cached height becomes 1 + the larger cached child height, everything else unchanged |
| AvlTree.RotateRight | atividade_4/valores_fixo/AVL.py:27-35 | `_rotacao_direita`: the left child becomes the root, the old root its right child taking the left child's old right subtree; the old root's height is recomputed before the new root's |
| AvlTree.RotateLeft | atividade_4/valores_fixo/AVL.py:37-45 | `_rotacao_esquerda`: the mirror image of the right rotation |
| AvlTree.Classify | atividade_4/valores_fixo/AVL.py:61-83 | the four case tests in the source's order (balance and comparison with the heavy child's key); the first that holds wins, none means no rotation |
| AvlTree.Rebalance | atividade_4/valores_fixo/AVL.py:64-85 | applies the selected case: a single rotation, the inner rotation stored into the child followed by the outer one, or the node unchanged |
| AvlTree.Rotations | atividade_4/valores_fixo/AVL.py:64-83 | the cases `inserir` announces with its `print` calls while inserting a key, innermost first |
| AvlTree.CachedHeightIsHeight | atividade_4/valores_fixo/AVL.py:15-19 | when every cache is 1 + the larger child cache, `obter_altura` is the true height (0 for an absent node) |
| AvlTree.HeavySideNonEmpty | atividade_4/valores_fixo/AVL.py:61-83 | with correct caches a balance above 1 (below -1) implies a left (right) child, so the case tests never read `chave` of `None` |
| AvlTree.RotateRightInorder | atividade_4/valores_fixo/AVL.py:27-35 | the right rotation keeps the in-order key sequence |
| AvlTree.RotateLeftInorder | atividade_4/valores_fixo/AVL.py:37-45 | the left rotation keeps the in-order key sequence |
| AvlTree.RotateRightKeys | atividade_4/valores_fixo/AVL.py:27-35 | the right rotation keeps the key set |
| AvlTree.RotateRightKeepsOrder | atividade_4/valores_fixo/AVL.py:27-35 | the right rotation keeps search-tree order |
| AvlTree.RotateLeftKeys | atividade_4/valores_fixo/AVL.py:37-45 | the left rotation keeps the key set |
| AvlTree.RotateLeftKeepsOrder | atividade_4/valores_fixo/AVL.py:37-45 | the left rotation keeps search-tree order |
| AvlTree.LeftLeftFix | atividade_4/valores_fixo/AVL.py:64-66 | a node of balance 2 whose left child leans left becomes an AVL tree one level lower after a right rotation |
| AvlTree.RightRightFix | atividade_4/valores_fixo/AVL.py:69-71 | the mirror case: balance -2 with a right-leaning right child, fixed by a left rotation |
| AvlTree.LeftRightFix | atividade_4/valores_fixo/AVL.py:74-77 | balance 2 with a right-leaning left child: the double rotation gives an AVL tree with the same keys, one level lower |
| AvlTree.LeftRightKeepsOrder | atividade_4/valores_fixo/AVL.py:74-77 | the left-right double rotation keeps the key set and search-tree order |
| AvlTree.RightLeftFix | atividade_4/valores_fixo/AVL.py:80-83 | the mirror double rotation gives an AVL tree with the same keys, one level lower |
| AvlTree.RightLeftKeepsOrder | atividade_4/valores_fixo/AVL.py:80-83 | the right-left double rotation keeps the key set and search-tree order |
| AvlTree.LeftInsertRebalances | atividade_4/valores_fixo/AVL.py:47-85 | after a left descent the case tests are safe, the right-left case cannot fire, the result is an AVL tree with one more key, and any rotation restores the old height |
| AvlTree.RightInsertRebalances | atividade_4/valores_fixo/AVL.py:47-85 | the mirror statement after a right descent |
| AvlTree.Insert | atividade_4/valores_fixo/AVL.py:47-85 | for an AVL tree and an absent key, `inserir` returns an AVL tree (search order, correct caches, balance in [-1, 1]) whose keys are the old ones plus the key, at most one level taller |
| AvlTree.InsertSize | atividade_4/valores_fixo/AVL.py:50-55 | insertion of an absent key adds exactly one node |
| AvlTree.KeysCountNodes | atividade_4/valores_fixo/AVL.py:12-14 | a search tree has as many distinct keys as nodes |
| AvlTree.AtMostOneRotation | atividade_4/valores_fixo/AVL.py:64-85 | one insertion announces at most one rotation, and after one the tree's height is unchanged |
| AvlTree.BalancedHeightLogarithmic | atividade_4/valores_fixo/AVL.py:12-14 | a balanced tree of height h has at least 2^(h/2) - 1 nodes |
| AvlTree.InsertBelowLeaf | atividade_4/valores_fixo/AVL.py:50-58 | inserting under a lone leaf hangs the key on the side its comparison picks, with height 2 |
| AvlTree.AscendingKeysGrow | atividade_4/valores_fixo/AVL.py:101-108 | inserting 10 and then 20 gives the leaf 10 and then 10 with right child 20 |
| AvlTree.AscendingKeysRotate | atividade_4/valores_fixo/AVL.py:101-108 | inserting 30 next fires one single left rotation and gives 20 with children 10 and 30 |
| AvlTree.ZigZagKeysGrow | atividade_4/valores_fixo/AVL.py:115-122 | inserting 10 and then 30 gives 10 with right child 30 |
| AvlTree.ZigZagKeysRotate | atividade_4/valores_fixo/AVL.py:115-122 | inserting 20 next fires one right-left double rotation |
| AvlTree.ZigZagKeysResult | atividade_4/valores_fixo/AVL.py:115-122 | the double rotation gives 20 with children 10 and 30, as in the ascending demonstration |
| AvlHeap.Node.constructor | atividade_4/valores_fixo/AVL.py:5-9 | `No(chave)` is a leaf of height 1 |
| AvlHeap.Node.SetLeft | atividade_4/valores_fixo/AVL.py:53 | `raiz.esquerda = ...`: only the left link changes, and the node then denotes the branch with the new left subtree |
| AvlHeap.Node.SetRight | atividade_4/valores_fixo/AVL.py:55 | `raiz.direita = ...`: only the right link changes, and the node then denotes the branch with the new right subtree |
| AvlHeap.Node.UpdateHeight | atividade_4/valores_fixo/AVL.py:58 | the cached height becomes 1 + the larger child height |
| AvlHeap.CachedHeightOf | atividade_4/valores_fixo/AVL.py:15-19 | `obter_altura` is the cached height, 0 for `None` |
| AvlHeap.BalanceOf | atividade_4/valores_fixo/AVL.py:21-25 | `calcular_fator_balanceamento` is the left minus the right cached height, 0 for `None` |
| AvlHeap.RotateRight | atividade_4/valores_fixo/AVL.py:27-35 | rewires `z`, `y` and `T3` in place and recomputes `z`'s height before `y`'s; the result denotes the value-level right rotation and uses only `z`'s nodes |
| AvlHeap.RotateLeft | atividade_4/valores_fixo/AVL.py:37-45 | the mirror image, denoting the value-level left rotation |
| AvlHeap.RotateLeftRight | atividade_4/valores_fixo/AVL.py:76-77 | the left child is rotated left and stored back, then the node is rotated right |
| AvlHeap.RotateRightLeft | atividade_4/valores_fixo/AVL.py:82-83 | the right child is rotated right and stored back, then the node is rotated left |
| AvlHeap.Rebalance | atividade_4/valores_fixo/AVL.py:58-85 | recomputes the height, tests the four cases in the source's order and applies the first that holds, as the value-level rebalancing does |
| AvlHeap.Insert | atividade_4/valores_fixo/AVL.py:47-85 | `inserir` on heap nodes returns a root denoting the value-level insertion, hence an AVL tree with the old keys plus the key |
| AvlHeap.InsertIntoLeft | atividade_4/valores_fixo/AVL.py:52-53 | the recursive insertion into the left subtree is stored back into `esquerda` |
| AvlHeap.InsertIntoRight | atividade_4/valores_fixo/AVL.py:54-55 | the recursive insertion into the right subtree is stored back into `direita` |

## Left out

- Drawing is not modelled. This covers `visualize`/`_add_nodes` (ArvoreBuscaBinaria.py), `visualizar` (Arvore_balanceada.py) and `visualizar_arvore` (AVL.py). These go through the graphviz library, write image files or print to the console.
- The rotation messages that `inserir` prints are not printed. `AvlTree.Rotations` is their ghost counterpart: the list of cases that fired.
- The `__main__` demonstrations are not modelled as programs. The two AVL demonstrations appear as the lemmas `AscendingKeys*` and `ZigZagKeys*`. The interactive `input()` and `random.sample` driver of Arvore_balanceada.py is left out.
- AVL insertion of a key already present is excluded by a precondition. The source then descends right, and the case tests can leave the tree unbalanced. AVL deletion and range queries do not exist in the code.
- Keys and values are unbounded integers. The source compares arbitrary Python objects.
- TraversalTree.BinaryTree.Inorder: an empty tree is excluded by a precondition. Called on an empty tree, the source reads a child of `None` and fails. The same holds for `Preorder` and `Postorder`.
- TraversalTree.BinaryTree.Insert: its ensures does not restate the multiset of stored values. `TraversalTree.InsertValues` and `BuildContents` state it about the same function.
- AvlHeap.RotateRight: the write of `y.direita` is placed after those of `z.esquerda` and `z.altura`. The same goes for `y.esquerda` in `RotateLeft`. Only the write to `y` is moved, and it neither reads nor is read by the two writes to `z`, so the resulting heap is the same as the source's.
- AvlHeap.RotateRight, AvlHeap.RotateLeft and AvlHeap.Rebalance promise that the result owns a subset of the nodes of the argument, not the same set. The footprint invariant allows a node's `Repr` to hold more than its subtree.
- Python's recursion limit is not modelled. The recursive helpers of the two unbalanced trees would raise `RecursionError` on a degenerate tree about 1000 levels deep; the model has no such limit.
- Some source functions are split into several members:
  - the descent of `inserir` (`InsertIntoLeft`/`InsertIntoRight`) and its tail (`Rebalance`, `RotateLeftRight`, `RotateRightLeft`);
  - the last branch of `_delete` (`RemoveNode`);
  - the entry point and recursive helper of each search tree (`Insert`/`InsertAt` and so on).
