/**
 * `inserir` and its rebalancing step on the heap nodes of `AvlHeap`, each
 * proved to compute exactly the tree that `AvlInsert` computes.
 */
module AvlHeapInsert {
  import opened AvlModel
  import opened AvlInsert
  import opened AvlHeap

  /** The rebalancing step of `inserir` (AVL.c:86-107) on the heap: the
      four rotation patterns, tried in the order AVL.c tries them. */
  method RebalanceInsertNode(n: HeapNode, k: int) returns (r: HeapNode)
    requires n.Valid() && InsertStep(n.Model, k)
    modifies n.Repr
    ensures r.Valid() && r.Repr <= old(n.Repr)
    ensures r.Model == InsertRebalance(old(n.Model), k)
  {
    ghost var N := n.Model;
    assert n.left != null ==> n.left.key == N.left.key;
    assert n.right != null ==> n.right.key == N.right.key;
    var b := BalanceOf(n);
    if b > 1 && k < n.left.key {
      r := RotateRightNode(n);
    } else if b < -1 && k > n.right.key {
      r := RotateLeftNode(n);
    } else if b > 1 && k > n.left.key {
      r := RotateLeftRightNode(n);
    } else if b < -1 && k < n.right.key {
      r := RotateRightLeftNode(n);
    } else {
      r := n;
    }
  }

  /** `nodo->esq = inserir(nodo->esq, dado)` followed by the height update
      (AVL.c:75-76, 84): the node's left child becomes the value model's
      insertion into it, and the node is otherwise unchanged. */
  method InsertLeft(n: HeapNode, k: int)
    requires n.Valid() && IsAVL(n.Model) && k < n.key
    modifies n.Repr
    ensures n.Valid() && fresh(n.Repr - old(n.Repr))
    ensures n.Model == Mk(old(n.key), Insert(old(n.Model).left, k), old(n.Model).right)
    decreases n.Repr, 0
  {
    assert n.left != null ==> n.left.Valid();
    assert n.right != null ==> n.right.Valid() && n !in n.right.Repr && ReprOf(n.left) !! n.right.Repr;
    var l := InsertNode(n.left, k);
    n.SetLeft(l);
  }

  /** `nodo->dir = inserir(nodo->dir, dado)` followed by the height update
      (AVL.c:77-78, 84): mirror image of `InsertLeft`. */
  method InsertRight(n: HeapNode, k: int)
    requires n.Valid() && IsAVL(n.Model) && n.key < k
    modifies n.Repr
    ensures n.Valid() && fresh(n.Repr - old(n.Repr))
    ensures n.Model == Mk(old(n.key), old(n.Model).left, Insert(old(n.Model).right, k))
    decreases n.Repr, 0
  {
    assert n.right != null ==> n.right.Valid();
    assert n.left != null ==> n.left.Valid() && n !in n.left.Repr && ReprOf(n.right) !! n.left.Repr;
    var c := InsertNode(n.right, k);
    n.SetRight(c);
  }

  /** `inserir` (AVL.c:70-108): an empty subtree becomes a new node; a
      smaller or larger key goes into the left or right child; an equal
      key returns the node untouched; then the node is rebalanced. The
      result is exactly the value model's insertion, so it is an AVL tree
      holding the old keys and `k`; only new nodes are added. */
  method InsertNode(n: HeapNode?, k: int) returns (r: HeapNode)
    requires n != null ==> n.Valid()
    requires IsAVL(ModelOf(n))
    modifies ReprOf(n)
    ensures r.Valid() && fresh(r.Repr - old(ReprOf(n)))
    ensures r.Model == Insert(old(ModelOf(n)), k)
    decreases ReprOf(n), 1
  {
    if n == null {
      r := new HeapNode(k);
      return;
    }
    ghost var T := n.Model;
    if k < n.key {
      InsertLeft(n, k);
      InsertedLeft(T, k, Insert(T.left, k));
    } else if k > n.key {
      InsertRight(n, k);
      InsertedRight(T, k, Insert(T.right, k));
    } else {
      return n;
    }
    r := RebalanceInsertNode(n, k);
  }
}
