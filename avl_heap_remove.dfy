/**
 * `encontrarMinimo` and `remover` on the heap nodes of `AvlHeap`, each
 * proved to compute exactly what `AvlModel.Leftmost` and
 * `AvlRemove.Remove` compute on the values.
 */
module AvlHeapRemove {
  import opened AvlModel
  import opened AvlRemove
  import opened AvlHeap

  /** `encontrarMinimo` (AVL.c:116-122): follows left links from `n` until
      a node without a left child. That node is the leftmost node of the
      subtree, whose key is the smallest one when the subtree is ordered. */
  method FindMin(n: HeapNode) returns (m: HeapNode)
    requires n.Valid()
    ensures m.Valid() && m.Model == Leftmost(n.Model)
    ensures m.left == null
  {
    m := n;
    while m.left != null
      invariant m.Valid() && m.Repr <= n.Repr
      invariant Leftmost(m.Model) == Leftmost(n.Model)
      decreases m.Repr
    {
      assert m.left.Valid();
      m := m.left;
    }
  }

  /** The common step of `remover` (AVL.c:154-177) on the heap: the
      height is recomputed, then one of the four rotation patterns is
      applied, chosen by the node's balance factor and the heavy child's,
      in the order AVL.c tries them. */
  method RebalanceRemoveNode(n: HeapNode) returns (r: HeapNode)
    requires n.Valid() && RemoveStep(Mk(n.key, n.Model.left, n.Model.right))
    modifies n.Repr
    ensures r.Valid() && r.Repr <= old(n.Repr)
    ensures r.Model == RemoveRebalance(Mk(old(n.key), old(n.Model).left, old(n.Model).right))
  {
    n.FixHeight();
    ghost var N := n.Model;
    assert RemoveStep(N);
    assert n.left != null ==> n.left.Valid();
    assert n.right != null ==> n.right.Valid();
    var b := BalanceOf(n);
    if b > 1 && BalanceOf(n.left) >= 0 {
      r := RotateRightNode(n);
    } else if b > 1 && BalanceOf(n.left) < 0 {
      r := RotateLeftRightNode(n);
    } else if b < -1 && BalanceOf(n.right) <= 0 {
      r := RotateLeftNode(n);
    } else if b < -1 && BalanceOf(n.right) > 0 {
      r := RotateRightLeftNode(n);
    } else {
      r := n;
    }
  }

  /** `nodo->esq = remover(nodo->esq, dado)` (AVL.c:129-130): the left
      child becomes the value model's deletion from it; the stored height
      is left for the common step that follows. */
  method RemoveLeft(n: HeapNode, k: int)
    requires n.Valid() && IsAVL(n.Model.left)
    modifies n.Repr
    ensures n.Valid() && n.Repr <= old(n.Repr)
    ensures n.Model == old(n.Model).(left := Remove(old(n.Model).left, k))
    decreases n.Repr, 0
  {
    assert n.left != null ==> n.left.Valid();
    assert n.right != null ==> n.right.Valid() && n !in n.right.Repr && ReprOf(n.left) !! n.right.Repr;
    var l := RemoveNode(n.left, k);
    n.LinkLeft(l);
  }

  /** `nodo->dir = remover(nodo->dir, dado)` (AVL.c:131-132 and AVL.c:146):
      mirror image of `RemoveLeft`. Only the right subtree needs to be an
      AVL tree: in the two-children case the node already holds the key
      that is being deleted on its right. */
  method RemoveRight(n: HeapNode, k: int)
    requires n.Valid() && IsAVL(n.Model.right)
    modifies n.Repr
    ensures n.Valid() && n.Repr <= old(n.Repr)
    ensures n.Model == old(n.Model).(right := Remove(old(n.Model).right, k))
    decreases n.Repr, 0
  {
    assert n.right != null ==> n.right.Valid();
    assert n.left != null ==> n.left.Valid() && n !in n.left.Repr && ReprOf(n.right) !! n.left.Repr;
    var c := RemoveNode(n.right, k);
    n.LinkRight(c);
  }

  /** The two-children case of `remover` (AVL.c:143-147): the node takes
      the key of the leftmost node of its right subtree, and that key is
      deleted from the right subtree. */
  method RemoveSuccessor(n: HeapNode)
    requires n.Valid() && IsAVL(n.Model) && n.left != null && n.right != null
    modifies n.Repr
    ensures n.Valid() && n.Repr <= old(n.Repr)
    ensures var m := Leftmost(old(n.Model).right).key;
      n.Model == old(n.Model).(key := m, right := Remove(old(n.Model).right, m))
    decreases n.Repr, 1
  {
    assert n.right.Valid();
    var temp := FindMin(n.right);
    n.SetKey(temp.key);
    RemoveRight(n, n.key);
  }

  /** `remover` at the node holding the key (AVL.c:133-148, then the
      common step). A node with at most one child is replaced by that
      child: AVL.c copies the child into the node and frees the child;
      here the child itself takes the node's place, which leaves the same
      keys, heights and links. A node with two children keeps its place
      and takes its successor's key. */
  method RemoveHere(n: HeapNode) returns (r: HeapNode?)
    requires n.Valid() && IsAVL(n.Model)
    modifies n.Repr
    ensures r != null ==> r.Valid() && r.Repr <= old(n.Repr)
    ensures ModelOf(r) == Remove(old(n.Model), old(n.key))
    decreases n.Repr, 2
  {
    ghost var T := n.Model;
    if n.left == null || n.right == null {
      var temp := if n.left != null then n.left else n.right;
      if temp == null {
        return null;
      }
      assert temp.Valid() && temp.Model == (if T.left.Node? then T.left else T.right);
      SplicedChild(T);
      r := RebalanceRemoveNode(temp);
    } else {
      ghost var m := Leftmost(T.right).key;
      ReplacedBySuccessor(T, m, Remove(T.right, m));
      RemoveSuccessor(n);
      r := RebalanceRemoveNode(n);
    }
  }

  /** `remover` (AVL.c:124-178): an empty subtree is returned as it is;
      otherwise the deletion descends by key, or happens here, and the
      node is brought back into shape by the common step. The result is
      exactly the value model's deletion, so it is an AVL tree holding the
      old keys except `k`, and no node is added. */
  method RemoveNode(n: HeapNode?, k: int) returns (r: HeapNode?)
    requires n != null ==> n.Valid()
    requires IsAVL(ModelOf(n))
    modifies ReprOf(n)
    ensures r != null ==> r.Valid() && r.Repr <= old(ReprOf(n))
    ensures ModelOf(r) == Remove(old(ModelOf(n)), k)
    decreases ReprOf(n), 3
  {
    if n == null {
      return n;
    }
    ghost var T := n.Model;
    if k < n.key {
      RemoveLeft(n, k);
      RemovedLeft(T, k, Remove(T.left, k));
      r := RebalanceRemoveNode(n);
    } else if k > n.key {
      RemoveRight(n, k);
      RemovedRight(T, k, Remove(T.right, k));
      r := RebalanceRemoveNode(n);
    } else {
      r := RemoveHere(n);
    }
  }
}
