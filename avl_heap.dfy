/**
 * The AVL tree of AVL.c as it lives on the heap: `HeapNode` is `struct sNodo`
 * (AVL.c:4-9) and `AvlTree` is the handle holding the root (AVL.c:11-13).
 * The rotations, insertion and deletion update the nodes' `left`, `right`,
 * `height` and `key` fields in place, as the C code does. Every node
 * carries two ghost fields: `Repr`, the set of nodes of its subtree, and
 * `Model`, the value of its subtree as an `AvlModel.Tree`; each method is
 * proved to produce exactly the subtree the value model computes, so the
 * invariants proved there (order, heights, balance, key sets) hold here.
 */
module AvlHeap {
  import opened AvlModel

  class HeapNode {
    var key: int
    var height: nat
    var left: HeapNode?
    var right: HeapNode?
    ghost var Repr: set<object>
    ghost var Model: Tree

    /** The subtree rooted here is a finite tree of distinct nodes (no
        sharing, no cycles) and `Model` is its value. */
    ghost predicate Valid()
      reads this, Repr
      ensures Valid() ==> this in Repr && Model.Node? && Model.key == key && Model.height == height
      decreases Repr
    {
      && this in Repr
      && (left != null ==>
            left in Repr && left.Repr <= Repr && this !in left.Repr && left.Valid())
      && (right != null ==>
            right in Repr && right.Repr <= Repr && this !in right.Repr && right.Valid())
      && (left != null && right != null ==> left.Repr !! right.Repr)
      && Model == Tree.Node(key, height, ModelOf(left), ModelOf(right))
    }

    /** `criaNodo` (AVL.c:15-24): a node with the key, height 1 and no
        children. */
    constructor (k: int)
      ensures Valid() && fresh(Repr)
      ensures key == k && height == 1 && left == null && right == null
      ensures Model == Leaf(k)
    {
      key := k;
      height := 1;
      left := null;
      right := null;
      Repr := {this};
      Model := Leaf(k);
    }

    /** `nodo->esq = c`: relinks the left child and leaves the stored
        height as it is. The node is valid again afterwards, with the new
        child in its value. */
    method LinkLeft(c: HeapNode?)
      requires c != null ==> c.Valid() && this !in c.Repr
      requires right != null ==> right.Valid() && this !in right.Repr
      requires c != null && right != null ==> c.Repr !! right.Repr
      modifies this
      ensures left == c && right == old(right) && key == old(key) && height == old(height)
      ensures Valid() && Repr == {this} + ReprOf(c) + ReprOf(right)
      ensures Model == Tree.Node(key, height, ModelOf(c), ModelOf(right))
    {
      left := c;
      Repr := {this} + ReprOf(left) + ReprOf(right);
      Model := Tree.Node(key, height, ModelOf(left), ModelOf(right));
    }

    /** `nodo->dir = c`: mirror image of `LinkLeft`. */
    method LinkRight(c: HeapNode?)
      requires c != null ==> c.Valid() && this !in c.Repr
      requires left != null ==> left.Valid() && this !in left.Repr
      requires c != null && left != null ==> c.Repr !! left.Repr
      modifies this
      ensures right == c && left == old(left) && key == old(key) && height == old(height)
      ensures Valid() && Repr == {this} + ReprOf(left) + ReprOf(c)
      ensures Model == Tree.Node(key, height, ModelOf(left), ModelOf(c))
    {
      right := c;
      Repr := {this} + ReprOf(left) + ReprOf(right);
      Model := Tree.Node(key, height, ModelOf(left), ModelOf(right));
    }

    /** `nodo->altura = 1 + max(altura(nodo->esq), altura(nodo->dir))`
        (AVL.c:84, AVL.c:154 and the rotations): the stored height becomes
        one more than the taller child's, and nothing else changes. */
    method FixHeight()
      requires Valid()
      modifies this
      ensures left == old(left) && right == old(right) && key == old(key) && Repr == old(Repr)
      ensures Valid() && Model == Mk(key, ModelOf(left), ModelOf(right))
    {
      height := 1 + Max(HeightOf(left), HeightOf(right));
      Model := Tree.Node(key, height, ModelOf(left), ModelOf(right));
    }

    /** `nodo->dado = temp->dado` (AVL.c:145): the node takes another key;
        links, height and node set stay as they are. */
    method SetKey(k: int)
      requires Valid()
      modifies this
      ensures key == k && left == old(left) && right == old(right) && height == old(height)
      ensures Valid() && Repr == old(Repr) && Model == old(Model).(key := k)
    {
      key := k;
      Model := Model.(key := k);
    }

    /** A relink followed by the height update, as in the rotations and
        after the recursive call of `inserir`. */
    method SetLeft(c: HeapNode?)
      requires c != null ==> c.Valid() && this !in c.Repr
      requires right != null ==> right.Valid() && this !in right.Repr
      requires c != null && right != null ==> c.Repr !! right.Repr
      modifies this
      ensures left == c && right == old(right) && key == old(key)
      ensures Valid() && Repr == {this} + ReprOf(c) + ReprOf(right)
      ensures Model == Mk(key, ModelOf(c), ModelOf(right))
    {
      LinkLeft(c);
      FixHeight();
    }

    /** Mirror image of `SetLeft`. */
    method SetRight(c: HeapNode?)
      requires c != null ==> c.Valid() && this !in c.Repr
      requires left != null ==> left.Valid() && this !in left.Repr
      requires c != null && left != null ==> c.Repr !! left.Repr
      modifies this
      ensures right == c && left == old(left) && key == old(key)
      ensures Valid() && Repr == {this} + ReprOf(left) + ReprOf(c)
      ensures Model == Mk(key, ModelOf(left), ModelOf(c))
    {
      LinkRight(c);
      FixHeight();
    }
  }

  ghost function ModelOf(n: HeapNode?): Tree
    reads n
  {
    if n == null then Nil else n.Model
  }

  ghost function ReprOf(n: HeapNode?): set<object>
    reads n
  {
    if n == null then {} else n.Repr
  }

  /** `altura` (AVL.c:26-31) on a node pointer: the height of the
      subtree's value, 0 for the null pointer. */
  function HeightOf(n: HeapNode?): (h: nat)
    requires n != null ==> n.Valid()
    reads n, if n != null then n.Repr else {}
    ensures h == Height(ModelOf(n))
  {
    if n == null then 0 else n.height
  }

  /** `calculaBalanceamento` (AVL.c:63-68) on a node pointer: the balance
      factor of the subtree's value, 0 for the null pointer. */
  function BalanceOf(n: HeapNode?): (b: int)
    requires n != null ==> n.Valid()
    reads n, if n != null then n.Repr else {}
    ensures b == BalanceFactor(ModelOf(n))
  {
    if n == null then 0 else HeightOf(n.left) - HeightOf(n.right)
  }

  /** `rotacaoDireita` (AVL.c:37-48): relinks `y` and its left child `x`
      in place, recomputes the height of `y` and then of `x`, and returns
      `x`. AVL.c stores `x->dir` before `y->esq`; the two stores touch
      different nodes and nothing is read in between, so storing `x->dir`
      together with `x`'s height, after `y` is complete, gives the same
      nodes. Only these two nodes change, and the subtree's value is the
      value model's right rotation of the old one. */
  method RotateRightNode(y: HeapNode) returns (x: HeapNode)
    requires y.Valid() && y.left != null
    modifies y, y.left
    ensures x == old(y.left)
    ensures x.Valid() && x.Repr <= old(y.Repr)
    ensures x.Model == RotateRight(old(y.Model))
  {
    x := y.left;
    var t2 := x.right;
    ghost var A, B, C := ModelOf(x.left), ModelOf(t2), ModelOf(y.right);
    assert x.Valid();
    assert y.Model == Tree.Node(y.key, y.height, Tree.Node(x.key, x.height, A, B), C);
    y.SetLeft(t2);
    x.SetRight(y);
    assert x.Model == Mk(x.key, A, Mk(y.key, B, C));
  }

  /** `rotacaoEsquerda` (AVL.c:50-61): the mirror image of
      `RotateRightNode`, with `x` lowered and its height recomputed first. */
  method RotateLeftNode(x: HeapNode) returns (y: HeapNode)
    requires x.Valid() && x.right != null
    modifies x, x.right
    ensures y == old(x.right)
    ensures y.Valid() && y.Repr <= old(x.Repr)
    ensures y.Model == RotateLeft(old(x.Model))
  {
    y := x.right;
    var t2 := y.left;
    ghost var A, B, C := ModelOf(x.left), ModelOf(t2), ModelOf(y.right);
    assert y.Valid();
    assert x.Model == Tree.Node(x.key, x.height, A, Tree.Node(y.key, y.height, B, C));
    x.SetRight(t2);
    y.SetLeft(x);
    assert y.Model == Mk(y.key, Mk(x.key, A, B), C);
  }

  /** The left-right double rotation of AVL.c:97-100 and AVL.c:163-166:
      the left child is rotated left and relinked without a height update,
      then the node is rotated right. */
  method RotateLeftRightNode(n: HeapNode) returns (r: HeapNode)
    requires n.Valid() && n.Model.left.Node? && n.Model.left.right.Node?
    modifies n.Repr
    ensures r.Valid() && r.Repr <= old(n.Repr)
    ensures r.Model == RotateRight(old(n.Model).(left := RotateLeft(old(n.Model).left)))
  {
    ghost var N := n.Model;
    assert n.left.Valid() && n.left.right != null;
    var l := RotateLeftNode(n.left);
    n.LinkLeft(l);
    assert n.Model == N.(left := RotateLeft(N.left));
    r := RotateRightNode(n);
  }

  /** The right-left double rotation of AVL.c:102-105 and AVL.c:172-175:
      mirror image of `RotateLeftRightNode`. */
  method RotateRightLeftNode(n: HeapNode) returns (r: HeapNode)
    requires n.Valid() && n.Model.right.Node? && n.Model.right.left.Node?
    modifies n.Repr
    ensures r.Valid() && r.Repr <= old(n.Repr)
    ensures r.Model == RotateLeft(old(n.Model).(right := RotateRight(old(n.Model).right)))
  {
    ghost var N := n.Model;
    assert n.right.Valid() && n.right.left != null;
    var c := RotateRightNode(n.right);
    n.LinkRight(c);
    assert n.Model == N.(right := RotateRight(N.right));
    r := RotateLeftNode(n);
  }
}
