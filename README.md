# AVL tree of AVL.c

A model of the self-balancing binary search tree in `AVL.c`. The tree holds
distinct `int` keys. Every node stores its key (`dado`), its height
(`altura`) and two child pointers (`esq`, `dir`). Insertion (`inserir`) and
deletion (`remover`) descend by key, recompute the heights on the way back
and apply one of four rotation patterns wherever the two sides of a node
differ in height by two.

The project has two layers.

- The value layer (`AvlModel`, `AvlInsert`, `AvlRemove`) describes a
  subtree as a `Tree` datatype. Insertion and deletion are functions that
  follow the C code branch by branch. Their contracts prove the AVL
  invariant: strict search-tree order, correct stored heights, and every
  balance factor in [-1, 1]. They also prove the exact key set of the
  result and how far the height can move. Two reference definitions are
  related to the stored data: the true depth of a subtree and its in-order
  key sequence.
- The heap layer (`AvlHeap`, `AvlHeapInsert`, `AvlHeapRemove`, `AvlTrees`)
  is a `HeapNode` class whose `key`, `height`, `left` and `right` fields are
  updated in place, as the C code does. There is also an `AvlTree` handle
  whose `root` is replaced by the wrappers. Each node carries two ghost
  fields: `Repr`, its subtree's nodes, and `Model`, its subtree's value.
  Every heap method is proved to leave exactly the subtree that the value
  layer computes, so the value layer's invariants carry over.
  `encontrarMinimo` is a `while` loop. `emOrdem` returns the keys it visits
  instead of printing them.

`AvlDemo` replays `main`. It inserts 12, 15, 14, 16, 10, 9, 12, 13, 11 and
8, lists the keys, removes 10 and lists them again. It proves that the two
listings are `[8, 9, 10, 11, 12, 13, 14, 15, 16]` and
`[8, 9, 11, 12, 13, 14, 15, 16]`.

## Model

| member | source | states |
|---|---|---|
| AvlModel.Max | AVL.c:33-35 | the result is at least each argument and is one of them |
| AvlModel.BalanceFactor | AVL.c:63-68 | 0 for an empty subtree; a positive factor implies a non-empty left child and a negative one a non-empty right child |
| AvlModel.Mk | AVL.c:84 | the height recomputed from the children is one more than the taller child's: larger than both, equal to one of them plus one, and correct when the children's heights are |
| AvlModel.Leaf | AVL.c:15-24 | a fresh node is an AVL tree holding exactly its key, listed as that single key |
| AvlModel.StoredHeightIsDepth | AVL.c:26-31 | when every stored height is 1 + the larger child height, `altura` of a subtree (`Height`) is its true depth (longest root-to-leaf path, computed without stored heights) |
| AvlModel.BalanceFactorIsDepthDifference | AVL.c:63-68 | on such a subtree `calculaBalanceamento` is the depth of the left child minus the depth of the right child |
| AvlModel.HeavyChildExists | AVL.c:89-104 | a positive (negative) balance factor implies a non-empty left (right) child, so the child key read in the rebalancing tests exists |
| AvlModel.InOrder | AVL.c:186-192 | the traversal lists as many keys as the subtree has nodes, and a key is listed exactly when it is stored in the subtree |
| AvlModel.OrderedIffAscending | AVL.c:186-192 | a subtree is a strict search tree if and only if its in-order listing is strictly ascending |
| AvlModel.OrderedKeysAreUnique | AVL.c:79-82 | in a strict search tree no key is stored twice: the key set has as many elements as there are nodes |
| AvlModel.AscendingUnique | AVL.c:186-192 | two strictly ascending listings with the same members are equal, so the listing of a key set is determined |
| AvlModel.RotateRight | AVL.c:37-48 | the left child becomes the root and the old root its right child, taking over the middle subtree; the in-order sequence and the key set are unchanged |
| AvlModel.RotateLeft | AVL.c:50-61 | mirror image: the right child rises, and the in-order sequence and the key set are unchanged |
| AvlModel.RotateRightKeepsOrder | AVL.c:37-48 | a right rotation of a strict search tree is a strict search tree |
| AvlModel.RotateLeftKeepsOrder | AVL.c:50-61 | a left rotation of a strict search tree is a strict search tree |
| AvlModel.RotateRightFixesHeights | AVL.c:44-45 | recomputing the lowered node and then the raised one leaves every stored height correct when the three moved subtrees' heights were correct |
| AvlModel.RotateLeftFixesHeights | AVL.c:57-58 | the same for the left rotation |
| AvlModel.RotateRightRebalances | AVL.c:159-161 | a node two levels taller on the left whose left child is not right-heavy becomes an AVL tree with the same keys by one right rotation; its height is stated exactly |
| AvlModel.RotateLeftRebalances | AVL.c:168-170 | mirror image for a right-heavy node whose right child is not left-heavy |
| AvlModel.RotateLeftRightRebalances | AVL.c:163-166 | a left-heavy node whose left child leans right becomes an AVL tree with the same keys, one level lower, by the left-right double rotation |
| AvlModel.RotateRightLeftRebalances | AVL.c:172-175 | mirror image: the right-left double rotation |
| AvlModel.Leftmost | AVL.c:116-122 | the leftmost node has no left child, its key is in the subtree, and in a strict search tree it is the smallest key |
| AvlModel.AvlHasMinNodes | AVL.c:86-107 | a balanced subtree with correct heights of height h has at least as many nodes as the sparsest AVL tree of height h |
| AvlModel.AvlHeightIsLogarithmic | AVL.c:86-107 | an AVL tree with n keys has height h with 2^h <= (n + 1)^2, i.e. h <= 2 log2(n + 1) |
| AvlInsert.InsertRebalance | AVL.c:86-107 | the four insertion cases, chosen by balance factor and by the key's side of the heavy child: the result is an AVL tree with the same keys, a balanced node is returned unchanged, and a rotation lowers the subtree by one level |
| AvlInsert.InsertedLeft | AVL.c:75-84 | after inserting into the left child and recomputing the height, the node holds the old keys and k, grew by at most one level, leans left when it grew, and a left overhang lies on the side of the child where k went |
| AvlInsert.InsertedRight | AVL.c:77-84 | mirror image for the right child |
| AvlInsert.Insert | AVL.c:70-108 | on an AVL tree: the result is an AVL tree whose keys are the old keys plus k; a key already present leaves the subtree unchanged; the height grows by at most one, and when it grows the root leans towards k's side |
| AvlRemove.RemoveRebalance | AVL.c:156-177 | the four deletion cases, chosen by balance factor and the heavy child's balance factor: the result is an AVL tree with the same keys, a balanced node is returned unchanged, and the height drops by at most one |
| AvlRemove.RemovedLeft | AVL.c:129-130 | after deleting from the left child, the node holds the old keys without k, is at most one level lower, is unbalanced only when it kept its height, and is unchanged when k was absent |
| AvlRemove.RemovedRight | AVL.c:131-132 | mirror image for the right child |
| AvlRemove.SplicedChild | AVL.c:134-142 | a node with at most one child is replaced by that child: it holds the other keys, is one level lower, and the common height and balance step leaves it as it is; with no child the subtree becomes empty |
| AvlRemove.ReplacedBySuccessor | AVL.c:143-147 | a node with two children that takes its successor's key and deletes it from the right subtree is again a search-tree node holding the old keys without its own, at most one level lower |
| AvlRemove.Remove | AVL.c:124-178 | on an AVL tree: the result is an AVL tree whose keys are the old keys without k; an absent key or an empty subtree leaves the subtree unchanged; the height drops by at most one |
| AvlHeap.HeapNode.constructor | AVL.c:15-24 | a new node holds the key, height 1 and no children |
| AvlHeap.HeapNode.LinkLeft | AVL.c:76 | storing a new left child leaves key, height and right child alone and the node's value takes in the child's subtree |
| AvlHeap.HeapNode.LinkRight | AVL.c:78 | the same for the right child |
| AvlHeap.HeapNode.FixHeight | AVL.c:84 | the stored height becomes 1 + the larger child height; nothing else changes |
| AvlHeap.HeapNode.SetLeft | AVL.c:42-44 | a new left child followed by the height update |
| AvlHeap.HeapNode.SetRight | AVL.c:55-57 | a new right child followed by the height update |
| AvlHeap.HeapNode.SetKey | AVL.c:145 | the node takes a new key and keeps its height and children; its value changes only in the root key |
| AvlHeap.RotateRightNode | AVL.c:37-48 | in place, the left child is returned as the new root, and the subtree's value is the value layer's right rotation of the old value |
| AvlHeap.RotateLeftNode | AVL.c:50-61 | in place, the right child is returned as the new root, and the value is the left rotation of the old value |
| AvlHeap.RotateLeftRightNode | AVL.c:97-100 | the left child is rotated left and relinked, then the node is rotated right; the value is the corresponding double rotation |
| AvlHeap.RotateRightLeftNode | AVL.c:102-105 | mirror image |
| AvlHeap.HeightOf | AVL.c:26-31 | `altura` read from the heap is 0 for a null pointer and otherwise the height of the node's subtree value |
| AvlHeap.BalanceOf | AVL.c:63-68 | `calculaBalanceamento` read from the heap is the balance factor of the node's subtree value |
| AvlHeapInsert.RebalanceInsertNode | AVL.c:86-107 | the heap rebalancing step leaves exactly the subtree the value layer's insertion rebalancing computes |
| AvlHeapInsert.InsertLeft | AVL.c:75-76 | the left child becomes the value layer's insertion into it, the height is recomputed, and only new nodes join the subtree |
| AvlHeapInsert.InsertRight | AVL.c:77-78 | mirror image |
| AvlHeapInsert.InsertNode | AVL.c:70-108 | the returned subtree is exactly the value layer's insertion into the old one, and only new nodes join it |
| AvlHeapRemove.FindMin | AVL.c:116-122 | the loop ends at a node without a left child whose subtree is the leftmost subtree of the start node |
| AvlHeapRemove.RebalanceRemoveNode | AVL.c:154-177 | height recomputation then the deletion rebalancing: the result is exactly the value layer's rebalancing of the node |
| AvlHeapRemove.RemoveLeft | AVL.c:129-130 | the left child becomes the value layer's deletion from it; no node joins the subtree |
| AvlHeapRemove.RemoveRight | AVL.c:131-132 | mirror image; only the right subtree needs to be an AVL tree, so the same method also serves the successor deletion of AVL.c:146 |
| AvlHeapRemove.RemoveSuccessor | AVL.c:143-147 | the node takes the key of the leftmost node of its right subtree, and that key is deleted from the right subtree: the node's value is the old one with that key at the root and the value layer's deletion of it applied to the right child |
| AvlHeapRemove.RemoveHere | AVL.c:133-148 | deleting the node's own key leaves exactly the value layer's deletion result |
| AvlHeapRemove.RemoveNode | AVL.c:124-178 | the returned subtree (possibly empty) is exactly the value layer's deletion from the old one, and no node joins it |
| AvlTrees.InOrderNode | AVL.c:186-192 | the keys visited are the value layer's in-order sequence |
| AvlTrees.AvlTree.constructor | AVL.c:195-196 | a new handle holds the empty tree |
| AvlTrees.AvlTree.Insert | AVL.c:110-114 | the root becomes the insertion result; the tree stays an AVL tree and its keys gain exactly k |
| AvlTrees.AvlTree.Remove | AVL.c:180-184 | the root becomes the deletion result; the tree stays an AVL tree and its keys lose exactly k |
| AvlTrees.AvlTree.InOrderKeys | AVL.c:186-192 | the listing is strictly ascending and holds each key of the tree exactly once |
| AvlDemo.InsertKey | AVL.c:198 | one insertion of the scenario adds exactly its key |
| AvlDemo.RemoveKey | AVL.c:214 | the deletion of the scenario removes exactly its key |
| AvlDemo.ListKeys | AVL.c:210 | a listing of the scenario is the ascending listing of the current key set |
| AvlDemo.ListedBeforeRemoval | AVL.c:209-211 | the ascending listing of the keys 8 to 16 is [8, 9, 10, 11, 12, 13, 14, 15, 16] |
| AvlDemo.ListedAfterRemoval | AVL.c:216-218 | the ascending listing of those keys without 10 is [8, 9, 11, 12, 13, 14, 15, 16] |
| AvlDemo.InsertFirstFive | AVL.c:198-202 | the first five insertions leave the keys 12, 15, 14, 16, 10 |
| AvlDemo.InsertLastFive | AVL.c:203-207 | the last five insertions add 9, 12, 13, 11, 8, the second 12 changing nothing |
| AvlDemo.Build | AVL.c:195-207 | a new handle after the ten insertions holds the keys 8 to 16 |
| AvlDemo.Demo | AVL.c:194-222 | `main` lists [8, 9, 10, 11, 12, 13, 14, 15, 16], and after removing 10 it lists [8, 9, 11, 12, 13, 14, 15, 16] |

## Left out

- `printf` in `emOrdem` and `main` is not modelled; the traversal returns the sequence of keys it would print.
- `malloc`, `free` and the allocation-failure branch of `criaNodo` are not modelled: Dafny allocates with `new` and has no deallocation. The final `free(avl)` of `main` is dropped too.
- The `avl != NULL` guards of `insereNaAVL` and `removeNaAVL` are not modelled: the handle is always a non-null object.
- `int` overflow of keys and heights is not modelled: both are mathematical integers, keys are only compared and heights stay logarithmic.
- AvlHeapRemove.RemoveHere: for a node with one child, AVL.c copies the child's fields into the node and frees the child; the model returns the child itself in the node's place. Keys, heights and links are the same; which of the two memory cells survives is not captured.
- AvlHeap.RotateRightNode: the two pointer stores are made in a different order than in AVL.c (the lowered node is completed first); they touch different nodes with no read in between, so the final state is the same. The same holds for AvlHeap.RotateLeftNode.
- AvlHeap.RotateRightNode: states the new subtree's node set as a subset of the old one rather than equal to it; the same holds for the other heap rotations and the heap deletion methods.
- AvlModel.AvlHeightIsLogarithmic: proves the height bound h <= 2 log2(n + 1), from 2^h <= (n + 1)^2, rather than the tighter classical bound of about 1.44 log2(n + 2).
- AvlModel.HeavyChildExists: the dereferences of `nodo->esq` and `nodo->dir` in the rebalancing tests are proved safe only for trees that satisfy the AVL invariant; the functions require that invariant because AVL.c relies on it.
- AvlDemo.InsertKey: the scenario is replayed through the key sets alone; the exact shape of the tree after each step is not stated.
