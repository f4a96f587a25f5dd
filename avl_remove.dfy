/**
 * Deletion (`remover`, AVL.c:124-178) on the value model: descend by key;
 * at the key, splice out a node with at most one child or overwrite a node
 * with two children by its in-order successor and delete that successor
 * from the right subtree; then recompute the height and rebalance, choosing
 * the rotation pattern by the heavy child's own balance factor.
 */
module AvlRemove {
  import opened AvlModel

  /** The state of node `n` when `remover` reaches its rebalancing step
      (AVL.c:156): both children are AVL trees separated by the node's key,
      the height has just been recomputed, and deleting one key left the
      two sides at most two levels apart. */
  predicate RemoveStep(n: Tree)
  {
    && AvlChildren(n)
    && n.height == 1 + Max(Height(n.left), Height(n.right))
    && -2 <= BalanceFactor(n) <= 2
  }

  /** The rebalancing step of `remover` (AVL.c:156-177): exactly one of the
      four rotation patterns, chosen by the node's balance factor and the
      heavy child's balance factor. It restores the AVL invariant without
      changing the keys; a balanced node is returned as it is, and a
      rotation leaves the subtree at most one level lower. */
  function RemoveRebalance(n: Tree): (r: Tree)
    requires RemoveStep(n)
    ensures IsAVL(r) && Keys(r) == Keys(n)
    ensures -1 <= BalanceFactor(n) <= 1 ==> r == n
    ensures Height(n) - 1 <= Height(r) <= Height(n)
  {
    var b := BalanceFactor(n);
    if b > 1 && BalanceFactor(n.left) >= 0 then
      RotateRightRebalances(n);
      RotateRight(n)
    else if b > 1 && BalanceFactor(n.left) < 0 then
      assert Balanced(n.left);
      RotateLeftRightRebalances(n);
      RotateRight(n.(left := RotateLeft(n.left)))
    else if b < -1 && BalanceFactor(n.right) <= 0 then
      RotateLeftRebalances(n);
      RotateLeft(n)
    else if b < -1 && BalanceFactor(n.right) > 0 then
      assert Balanced(n.right);
      RotateRightLeftRebalances(n);
      RotateLeft(n.(right := RotateRight(n.right)))
    else
      n
  }

  /** Key-set arithmetic of one level of `remover`: deleting `k` from one
      side of a node whose key is not `k` deletes it from the whole. */
  lemma DropKey(a: set<int>, x: int, b: set<int>, k: int)
    requires k != x
    ensures k !in b ==> (a - {k}) + {x} + b == (a + {x} + b) - {k}
    ensures k !in a ==> a + {x} + (b - {k}) == (a + {x} + b) - {k}
  {
  }

  /** Key-set arithmetic of the two-children case of `remover`: a node's
      key replaced by a key `m` of its right side, with `m` deleted there,
      leaves every key but the node's own. */
  lemma SwapKey(a: set<int>, x: int, b: set<int>, m: int)
    requires m in b && x !in a && x !in b
    ensures a + {m} + (b - {m}) == (a + {x} + b) - {x}
  {
  }

  /** Height arithmetic of one level of `remover`: when one side of a
      balanced node loses at most one level, the balance factor stays in
      [-2, 2], the height drops by at most one, and a node left unbalanced
      kept its height. */
  lemma ShorterSide(hl: int, hr: int, hl': int, hr': int)
    requires -1 <= hl - hr <= 1
    requires hl - 1 <= hl' <= hl && hr - 1 <= hr' <= hr && (hl' == hl || hr' == hr)
    ensures -2 <= hl' - hr' <= 2
    ensures Max(hl, hr) - 1 <= Max(hl', hr') <= Max(hl, hr)
    ensures !(-1 <= hl' - hr' <= 1) ==> Max(hl', hr') == Max(hl, hr)
  {
  }

  /** One level of `remover` after the recursive call into the left child:
      the node is in the state the rebalancing step expects, it holds the
      old keys except `k`, it is at most one level lower, and it is
      unbalanced only when it kept its height. */
  lemma RemovedLeft(t: Tree, k: int, l': Tree)
    requires IsAVL(t) && t.Node? && k < t.key
    requires IsAVL(l') && Keys(l') == Keys(t.left) - {k}
    requires k !in Keys(t.left) ==> l' == t.left
    requires Height(t.left) - 1 <= Height(l') <= Height(t.left)
    ensures var n := Mk(t.key, l', t.right);
      && RemoveStep(n)
      && Keys(n) == Keys(t) - {k}
      && (k !in Keys(t) ==> n == t)
      && Height(t) - 1 <= Height(n) <= Height(t)
      && (!(-1 <= BalanceFactor(n) <= 1) ==> Height(n) == Height(t))
  {
    var x, l, rt := t.key, t.left, t.right;
    assert IsAVL(l) && IsAVL(rt) && Separates(x, l, rt);
    assert -1 <= Height(l) - Height(rt) <= 1 && t.height == 1 + Max(Height(l), Height(rt));
    ShorterSide(Height(l), Height(rt), Height(l'), Height(rt));
    var n := Mk(x, l', rt);
    assert Separates(x, l', rt);
    assert k !in Keys(rt);
    DropKey(Keys(l), x, Keys(rt), k);
    if k !in Keys(t) {
      assert l' == l;
    }
  }

  /** Mirror image of `RemovedLeft`. */
  lemma RemovedRight(t: Tree, k: int, r': Tree)
    requires IsAVL(t) && t.Node? && t.key < k
    requires IsAVL(r') && Keys(r') == Keys(t.right) - {k}
    requires k !in Keys(t.right) ==> r' == t.right
    requires Height(t.right) - 1 <= Height(r') <= Height(t.right)
    ensures var n := Mk(t.key, t.left, r');
      && RemoveStep(n)
      && Keys(n) == Keys(t) - {k}
      && (k !in Keys(t) ==> n == t)
      && Height(t) - 1 <= Height(n) <= Height(t)
      && (!(-1 <= BalanceFactor(n) <= 1) ==> Height(n) == Height(t))
  {
    var x, l, rt := t.key, t.left, t.right;
    assert IsAVL(l) && IsAVL(rt) && Separates(x, l, rt);
    assert -1 <= Height(l) - Height(rt) <= 1 && t.height == 1 + Max(Height(l), Height(rt));
    ShorterSide(Height(l), Height(rt), Height(l), Height(r'));
    var n := Mk(x, l, r');
    assert Separates(x, l, r');
    assert k !in Keys(l);
    DropKey(Keys(l), x, Keys(rt), k);
    if k !in Keys(t) {
      assert r' == rt;
    }
  }

  /** The splice case (AVL.c:134-142): a node with at most one child is
      replaced by that child, which then goes through the same height and
      balance step; on a valid tree that child is already balanced with a
      correct height, so the step leaves it as it is. */
  lemma SplicedChild(t: Tree)
    requires IsAVL(t) && t.Node? && (t.left.Nil? || t.right.Nil?)
    ensures var c := if t.left.Node? then t.left else t.right;
      c.Node? ==>
        && RemoveStep(Mk(c.key, c.left, c.right))
        && Mk(c.key, c.left, c.right) == c
        && -1 <= BalanceFactor(c) <= 1
        && Keys(c) == Keys(t) - {t.key}
        && Height(c) == Height(t) - 1
    ensures t.left.Nil? && t.right.Nil? ==> Keys(t) - {t.key} == {} && Height(t) == 1
  {
    var c := if t.left.Node? then t.left else t.right;
    if c.Node? {
      assert IsAVL(c);
      assert Mk(c.key, c.left, c.right) == c;
      assert t.key !in Keys(c);
    }
  }

  /** The two-children case (AVL.c:143-147): the node takes the key `m` of
      its in-order successor, and `m` is deleted from the right subtree;
      the node is then in the state the rebalancing step expects, holds
      the old keys except its own, and is unbalanced only when it kept
      its height. */
  lemma ReplacedBySuccessor(t: Tree, m: int, r': Tree)
    requires IsAVL(t) && t.Node? && t.left.Node? && t.right.Node?
    requires m == Leftmost(t.right).key
    requires IsAVL(r') && Keys(r') == Keys(t.right) - {m}
    requires Height(t.right) - 1 <= Height(r') <= Height(t.right)
    ensures var n := Mk(m, t.left, r');
      && RemoveStep(n)
      && Keys(n) == Keys(t) - {t.key}
      && Height(t) - 1 <= Height(n) <= Height(t)
      && (!(-1 <= BalanceFactor(n) <= 1) ==> Height(n) == Height(t))
  {
    var x, l, rt := t.key, t.left, t.right;
    assert IsAVL(l) && IsAVL(rt) && Separates(x, l, rt);
    assert -1 <= Height(l) - Height(rt) <= 1 && t.height == 1 + Max(Height(l), Height(rt));
    assert m in Keys(rt) && x < m;
    assert Separates(m, l, r') by {
      forall y | y in Keys(l) ensures y < m {
        assert y < x;
      }
      assert Ordered(rt);
      forall y | y in Keys(r') ensures m < y {
        assert y in Keys(rt) && y != m;
      }
    }
    ShorterSide(Height(l), Height(rt), Height(l), Height(r'));
    var n := Mk(m, l, r');
    assert x !in Keys(l) && x !in Keys(rt);
    SwapKey(Keys(l), x, Keys(rt), m);
  }

  /** `remover`. On a valid AVL tree the result is a valid AVL tree holding
      the old keys except `k`; a key that is absent (including the empty
      subtree) leaves the subtree exactly as it was. The height drops by at
      most one. */
  function Remove(t: Tree, k: int): (r: Tree)
    requires IsAVL(t)
    ensures IsAVL(r)
    ensures Keys(r) == Keys(t) - {k}
    ensures k !in Keys(t) ==> r == t
    ensures Height(t) - 1 <= Height(r) <= Height(t)
    decreases t
  {
    match t
    case Nil => Nil
    case Node(x, h, l, rt) =>
      if k < x then
        var l' := Remove(l, k);
        RemovedLeft(t, k, l');
        RemoveRebalance(Mk(x, l', rt))
      else if k > x then
        var rt' := Remove(rt, k);
        RemovedRight(t, k, rt');
        RemoveRebalance(Mk(x, l, rt'))
      else if l.Nil? || rt.Nil? then
        // the surviving child, if any, takes the node's place
        var c := if l.Node? then l else rt;
        SplicedChild(t);
        if c.Nil? then Nil else RemoveRebalance(Mk(c.key, c.left, c.right))
      else
        var m := Leftmost(rt).key;
        var rt' := Remove(rt, m);
        ReplacedBySuccessor(t, m, rt');
        RemoveRebalance(Mk(m, l, rt'))
  }
}
