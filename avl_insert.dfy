/**
 * Insertion (`inserir`, AVL.c:70-108) on the value model: descend by key,
 * rebuild the path with recomputed heights, and at each node apply the one
 * rotation pattern that the balance factor and the key's side call for.
 */
module AvlInsert {
  import opened AvlModel

  /** The state of node `n` when `inserir` reaches its rebalancing step
      (AVL.c:86): the key `k` went into one child, both children are AVL
      trees separated by the node's key, the node's height has just been
      recomputed, and a side that is two levels too tall got that way
      because its root now leans towards the side where `k` landed. */
  predicate InsertStep(n: Tree, k: int)
  {
    && AvlChildren(n)
    && n.height == 1 + Max(Height(n.left), Height(n.right))
    && -2 <= BalanceFactor(n) <= 2
    && (BalanceFactor(n) == 2 ==>
         && n.left.Node?
         && ((k < n.left.key && BalanceFactor(n.left) == 1) || (n.left.key < k && BalanceFactor(n.left) == -1)))
    && (BalanceFactor(n) == -2 ==>
         && n.right.Node?
         && ((n.right.key < k && BalanceFactor(n.right) == -1) || (k < n.right.key && BalanceFactor(n.right) == 1)))
  }

  /** The rebalancing step of `inserir` (AVL.c:86-107): exactly one of the
      four rotation patterns, chosen by the balance factor and by the side
      of the heavy child's key that `k` lies on. It restores the AVL
      invariant without changing the keys; a balanced node is returned as
      it is, and a rotation lowers the subtree by one level. */
  function InsertRebalance(n: Tree, k: int): (r: Tree)
    requires InsertStep(n, k)
    ensures IsAVL(r) && Keys(r) == Keys(n)
    ensures -1 <= BalanceFactor(n) <= 1 ==> r == n
    ensures BalanceFactor(n) == 2 || BalanceFactor(n) == -2 ==> Height(r) == Height(n) - 1
  {
    var b := BalanceFactor(n);
    if b > 1 && k < n.left.key then
      RotateRightRebalances(n);
      RotateRight(n)
    else if b < -1 && k > n.right.key then
      RotateLeftRebalances(n);
      RotateLeft(n)
    else if b > 1 && k > n.left.key then
      RotateLeftRightRebalances(n);
      RotateRight(n.(left := RotateLeft(n.left)))
    else if b < -1 && k < n.right.key then
      RotateRightLeftRebalances(n);
      RotateLeft(n.(right := RotateRight(n.right)))
    else
      n
  }

  /** When insertion makes a non-empty subtree one level taller, no
      rotation took place at its root, and the root now leans towards the
      side the key went to. */
  predicate LeansTowardsKey(t: Tree, k: int, r: Tree)
  {
    t.Node? && Height(r) == Height(t) + 1 ==>
      && r.Node? && r.key == t.key
      && (k < t.key ==> BalanceFactor(r) == 1)
      && (t.key < k ==> BalanceFactor(r) == -1)
  }

  /** Key-set arithmetic of one level of `inserir`: adding `k` to one side
      of a node adds it to the whole. */
  lemma AddKey(a: set<int>, x: int, b: set<int>, k: int)
    ensures (a + {k}) + {x} + b == (a + {x} + b) + {k}
    ensures a + {x} + (b + {k}) == (a + {x} + b) + {k}
  {
  }

  /** Height arithmetic of one level of `inserir`: when one side `g` of a
      balanced node grows by at most one level against the other side `o`,
      the difference stays within [-1, 2], the height grows by at most
      one, and when it grows the grown side is the taller one. */
  lemma TallerSide(g: int, o: int, g': int)
    requires -1 <= g - o <= 1 && g <= g' <= g + 1
    ensures -1 <= g' - o <= 2
    ensures Max(g, o) <= Max(g', o) <= Max(g, o) + 1
    ensures Max(o, g) == Max(g, o) && Max(o, g') == Max(g', o)
    ensures Max(g', o) == Max(g, o) + 1 ==> 1 <= g' - o
  {
  }

  /** One level of `inserir` after the recursive call into the left child:
      given what the call promises about the new left child, the node is
      in the state the rebalancing step expects, it holds the old keys and
      `k`, it grew by at most one level, and when it grew it leans left. */
  lemma InsertedLeft(t: Tree, k: int, l': Tree)
    requires IsAVL(t) && t.Node? && k < t.key
    requires IsAVL(l') && Keys(l') == Keys(t.left) + {k}
    requires k in Keys(t.left) ==> l' == t.left
    requires Height(t.left) <= Height(l') <= Height(t.left) + 1
    requires LeansTowardsKey(t.left, k, l')
    ensures var n := Mk(t.key, l', t.right);
      && InsertStep(n, k)
      && Keys(n) == Keys(t) + {k}
      && (k in Keys(t) ==> n == t)
      && Height(t) <= Height(n) <= Height(t) + 1
      && (Height(n) == Height(t) + 1 ==> 1 <= BalanceFactor(n))
  {
    var n := Mk(t.key, l', t.right);
    assert IsAVL(t.left) && IsAVL(t.right);
    assert -1 <= Height(t.left) - Height(t.right) <= 1;
    TallerSide(Height(t.left), Height(t.right), Height(l'));
    AddKey(Keys(t.left), t.key, Keys(t.right), k);
    assert Separates(t.key, l', t.right);
    if BalanceFactor(n) == 2 {
      assert t.left.Node?;
      assert t.left.key in Keys(t.left);
    }
    if k in Keys(t) {
      assert k in Keys(t.left);
    }
  }

  /** Mirror image of `InsertedLeft`. */
  lemma InsertedRight(t: Tree, k: int, r': Tree)
    requires IsAVL(t) && t.Node? && t.key < k
    requires IsAVL(r') && Keys(r') == Keys(t.right) + {k}
    requires k in Keys(t.right) ==> r' == t.right
    requires Height(t.right) <= Height(r') <= Height(t.right) + 1
    requires LeansTowardsKey(t.right, k, r')
    ensures var n := Mk(t.key, t.left, r');
      && InsertStep(n, k)
      && Keys(n) == Keys(t) + {k}
      && (k in Keys(t) ==> n == t)
      && Height(t) <= Height(n) <= Height(t) + 1
      && (Height(n) == Height(t) + 1 ==> BalanceFactor(n) <= -1)
  {
    var n := Mk(t.key, t.left, r');
    assert IsAVL(t.left) && IsAVL(t.right);
    assert -1 <= Height(t.right) - Height(t.left) <= 1;
    TallerSide(Height(t.right), Height(t.left), Height(r'));
    AddKey(Keys(t.left), t.key, Keys(t.right), k);
    assert Separates(t.key, t.left, r');
    if BalanceFactor(n) == -2 {
      assert t.right.Node?;
      assert t.right.key in Keys(t.right);
    }
    if k in Keys(t) {
      assert k in Keys(t.right);
    }
  }

  /** `inserir`. On a valid AVL tree the result is a valid AVL tree holding
      the old keys and `k`; a key already present leaves the subtree as it
      was. The height grows by at most one, and when it grows the root
      leans towards the side `k` went to: this is what the caller's
      rebalancing step relies on. */
  function Insert(t: Tree, k: int): (r: Tree)
    requires IsAVL(t)
    ensures IsAVL(r)
    ensures Keys(r) == Keys(t) + {k}
    ensures k in Keys(t) ==> r == t
    ensures Height(t) <= Height(r) <= Height(t) + 1
    ensures LeansTowardsKey(t, k, r)
    decreases t
  {
    match t
    case Nil => Leaf(k)
    case Node(x, h, l, rt) =>
      if k < x then
        var l' := Insert(l, k);
        InsertedLeft(t, k, l');
        InsertRebalance(Mk(x, l', rt), k)
      else if k > x then
        var rt' := Insert(rt, k);
        InsertedRight(t, k, rt');
        InsertRebalance(Mk(x, l, rt'), k)
      else
        t
  }
}
