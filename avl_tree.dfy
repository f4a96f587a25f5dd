/**
 * The handle of AVL.c (`AVLTree`, AVL.c:11-13), the wrappers that replace
 * its root (`insereNaAVL`, `removeNaAVL`) and the in-order traversal
 * (`emOrdem`), which here returns the keys it visits instead of printing
 * them.
 */
module AvlTrees {
  import opened AvlModel
  import AvlInsert
  import AvlRemove
  import opened AvlHeap
  import AvlHeapInsert
  import AvlHeapRemove

  /** `emOrdem` (AVL.c:186-192): left subtree, then the node's key, then
      the right subtree; the keys come out as the value model's traversal. */
  method InOrderNode(n: HeapNode?) returns (s: seq<int>)
    requires n != null ==> n.Valid()
    ensures s == InOrder(ModelOf(n))
    decreases ReprOf(n)
  {
    if n == null {
      return [];
    }
    assert n.left != null ==> n.left.Valid();
    assert n.right != null ==> n.right.Valid();
    var a := InOrderNode(n.left);
    var b := InOrderNode(n.right);
    s := a + [n.key] + b;
  }

  class AvlTree {
    var root: HeapNode?
    ghost var Repr: set<object>

    /** The root, if any, heads a valid subtree that is an AVL tree. */
    ghost predicate Valid()
      reads this, Repr
    {
      && this in Repr
      && (root != null ==> root in Repr && root.Repr <= Repr && this !in root.Repr && root.Valid())
      && IsAVL(ModelOf(root))
    }

    /** The tree's value. */
    ghost function Model(): Tree
      reads this, root
    {
      ModelOf(root)
    }

    /** A handle with an empty tree, as `main` sets it up (AVL.c:195-196). */
    constructor ()
      ensures Valid() && fresh(Repr)
      ensures Model() == Nil
    {
      root := null;
      Repr := {this};
    }

    /** `insereNaAVL` (AVL.c:110-114): the root becomes `inserir` of the
        root. The tree stays an AVL tree and gains exactly the key `k`. */
    method Insert(k: int)
      requires Valid()
      modifies Repr
      ensures Valid() && fresh(Repr - old(Repr))
      ensures Model() == AvlInsert.Insert(old(Model()), k)
      ensures Keys(Model()) == Keys(old(Model())) + {k}
    {
      var r := AvlHeapInsert.InsertNode(root, k);
      root := r;
      Repr := {this} + r.Repr;
    }

    /** `removeNaAVL` (AVL.c:180-184): the root becomes `remover` of the
        root. The tree stays an AVL tree and loses exactly the key `k`. */
    method Remove(k: int)
      requires Valid()
      modifies Repr
      ensures Valid() && Repr <= old(Repr)
      ensures Model() == AvlRemove.Remove(old(Model()), k)
      ensures Keys(Model()) == Keys(old(Model())) - {k}
    {
      var r := AvlHeapRemove.RemoveNode(root, k);
      root := r;
      Repr := {this} + ReprOf(r);
    }

    /** `emOrdem(avl->raiz)`: the keys in strictly ascending order, each
        key of the tree exactly once. */
    method InOrderKeys() returns (s: seq<int>)
      requires Valid()
      ensures s == InOrder(Model())
      ensures Ascending(s) && forall y :: y in s <==> y in Keys(Model())
    {
      s := InOrderNode(root);
      OrderedIffAscending(Model());
    }
  }
}
