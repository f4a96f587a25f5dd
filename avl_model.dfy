/**
 * Value model of the nodes of the AVL tree in AVL.c: a subtree is a value
 * of `Tree`, and the helpers `altura`, `max` and `calculaBalanceamento`,
 * the two rotations and the in-order traversal are functions over it.
 * The structural invariants (search-tree order, stored heights, balance)
 * are predicates, and the lemmas here relate them to independent
 * reference definitions (the in-order sequence, the true depth).
 */
module AvlModel {

  /** A subtree. `Nil` is the null pointer; a `Node` holds the key (`dado`),
      the stored height (`altura`) and the two children (`esq`, `dir`). */
  datatype Tree = Nil | Node(key: int, height: nat, left: Tree, right: Tree)

  /** `max`: the larger of two integers. */
  function Max(a: int, b: int): (m: int)
    ensures m >= a && m >= b
    ensures m == a || m == b
  {
    if a > b then a else b
  }

  /** `altura`: the height stored at the root of a subtree, 0 when it is
      empty. `StoredHeightIsDepth` shows it is the true depth whenever
      the stored heights are correct. */
  function Height(t: Tree): nat
  {
    if t.Nil? then 0 else t.height
  }

  /** `calculaBalanceamento`: left height minus right height, 0 when
      empty. The side that is taller is not empty, which is what lets
      the rebalancing code read the heavy child's key. */
  function BalanceFactor(t: Tree): (b: int)
    ensures t.Nil? ==> b == 0
    ensures b > 0 ==> t.Node? && t.left.Node?
    ensures b < 0 ==> t.Node? && t.right.Node?
  {
    if t.Nil? then 0 else Height(t.left) - Height(t.right)
  }

  /** A node whose stored height is recomputed from its children, as every
      mutator does right after changing a node's children. */
  function Mk(x: int, l: Tree, r: Tree): (t: Tree)
    ensures HeightsOk(l) && HeightsOk(r) ==> HeightsOk(t)
    ensures Height(l) < Height(t) && Height(r) < Height(t)
    ensures Height(t) == Height(l) + 1 || Height(t) == Height(r) + 1
  {
    Node(x, 1 + Max(Height(l), Height(r)), l, r)
  }

  /** A fresh node, as `criaNodo` builds it: a one-key AVL tree. */
  function Leaf(x: int): (t: Tree)
    ensures IsAVL(t) && Keys(t) == {x} && InOrder(t) == [x]
  {
    Node(x, 1, Nil, Nil)
  }

  /** The set of keys stored in a subtree. */
  function Keys(t: Tree): set<int>
  {
    match t
    case Nil => {}
    case Node(x, _, l, r) => Keys(l) + {x} + Keys(r)
  }

  /** Number of nodes of a subtree. */
  function Size(t: Tree): nat
  {
    match t
    case Nil => 0
    case Node(_, _, l, r) => Size(l) + 1 + Size(r)
  }

  /** `emOrdem`: the keys in the order the traversal visits them
      (left subtree, node, right subtree). */
  function InOrder(t: Tree): (s: seq<int>)
    ensures |s| == Size(t)
    ensures forall y :: y in s <==> y in Keys(t)
  {
    match t
    case Nil => []
    case Node(x, _, l, r) => InOrder(l) + [x] + InOrder(r)
  }

  /** The true height of a subtree: the number of nodes on its longest
      downward path, computed without looking at stored heights. */
  function Depth(t: Tree): nat
  {
    match t
    case Nil => 0
    case Node(_, _, l, r) => 1 + Max(Depth(l), Depth(r))
  }

  // ----- Invariants -----

  /** Every key of `l` is below `x` and every key of `r` is above it. */
  predicate Separates(x: int, l: Tree, r: Tree)
  {
    && (forall y :: y in Keys(l) ==> y < x)
    && (forall y :: y in Keys(r) ==> x < y)
  }

  /** Strict binary-search-tree order at every node. */
  predicate Ordered(t: Tree)
  {
    match t
    case Nil => true
    case Node(x, _, l, r) => Ordered(l) && Ordered(r) && Separates(x, l, r)
  }

  /** Every stored height is 1 + the larger stored height of the children. */
  predicate HeightsOk(t: Tree)
  {
    match t
    case Nil => true
    case Node(_, h, l, r) => HeightsOk(l) && HeightsOk(r) && h == 1 + Max(Height(l), Height(r))
  }

  /** Every balance factor lies in [-1, 1]. */
  predicate Balanced(t: Tree)
  {
    match t
    case Nil => true
    case Node(_, _, l, r) => Balanced(l) && Balanced(r) && -1 <= BalanceFactor(t) <= 1
  }

  /** The invariant every public operation re-establishes. */
  predicate IsAVL(t: Tree)
  {
    Ordered(t) && HeightsOk(t) && Balanced(t)
  }

  /** Strictly ascending sequence: sorted, and therefore without repeats. */
  predicate Ascending(s: seq<int>)
  {
    forall i, j :: 0 <= i < j < |s| ==> s[i] < s[j]
  }

  // ----- Heights -----

  /** With correct stored heights, `altura` reports the true depth. */
  lemma {:induction false} StoredHeightIsDepth(t: Tree)
    requires HeightsOk(t)
    ensures Height(t) == Depth(t)
  {
    match t
    case Nil =>
    case Node(_, _, l, r) =>
      StoredHeightIsDepth(l);
      StoredHeightIsDepth(r);
  }

  /** With correct stored heights, `calculaBalanceamento` is the difference
      of the true depths of the two children. */
  lemma BalanceFactorIsDepthDifference(t: Tree)
    requires HeightsOk(t) && t.Node?
    ensures BalanceFactor(t) == Depth(t.left) - Depth(t.right)
  {
    StoredHeightIsDepth(t.left);
    StoredHeightIsDepth(t.right);
  }

  /** A side that is taller than the other is not empty: this is what lets
      the rebalancing code dereference the heavy child. */
  lemma {:induction false} HeavyChildExists(t: Tree)
    requires HeightsOk(t) && t.Node?
    ensures BalanceFactor(t) > 0 ==> t.left.Node? && Height(t.left) >= 1
    ensures BalanceFactor(t) < 0 ==> t.right.Node? && Height(t.right) >= 1
    ensures Height(t) >= 1
  {
  }

  // ----- In-order sequence -----

  /** A strictly ascending `a + [x] + b` has strictly ascending parts, all
      of `a` below `x` and all of `b` above it. */
  lemma AscendingSplit(a: seq<int>, x: int, b: seq<int>)
    requires Ascending(a + [x] + b)
    ensures Ascending(a) && Ascending(b)
    ensures (forall y :: y in a ==> y < x) && (forall y :: y in b ==> x < y)
  {
    var s := a + [x] + b;
    assert s[|a|] == x;
    forall i, j | 0 <= i < j < |a| ensures a[i] < a[j] {
      assert s[i] == a[i] && s[j] == a[j];
    }
    forall i, j | 0 <= i < j < |b| ensures b[i] < b[j] {
      assert s[|a| + 1 + i] == b[i] && s[|a| + 1 + j] == b[j];
    }
    forall y | y in a ensures y < x {
      var i :| 0 <= i < |a| && a[i] == y;
      assert s[i] == y;
    }
    forall y | y in b ensures x < y {
      var i :| 0 <= i < |b| && b[i] == y;
      assert s[|a| + 1 + i] == y;
    }
  }

  /** Conversely, strictly ascending parts on either side of `x` make a
      strictly ascending `a + [x] + b`. */
  lemma AscendingJoin(a: seq<int>, x: int, b: seq<int>)
    requires Ascending(a) && Ascending(b)
    requires (forall y :: y in a ==> y < x) && (forall y :: y in b ==> x < y)
    ensures Ascending(a + [x] + b)
  {
    var s := a + [x] + b;
    forall i, j | 0 <= i < j < |s| ensures s[i] < s[j] {
      if j < |a| {
        assert s[i] == a[i] && s[j] == a[j];
      } else if i < |a| {
        assert s[i] == a[i] && a[i] in a;
        if j > |a| {
          assert s[j] == b[j - |a| - 1] && s[j] in b;
        }
      } else if i == |a| {
        assert s[j] == b[j - |a| - 1] && s[j] in b;
      } else {
        assert s[i] == b[i - |a| - 1] && s[j] == b[j - |a| - 1];
      }
    }
  }

  lemma AscendingConcat(a: seq<int>, x: int, b: seq<int>)
    ensures Ascending(a + [x] + b) <==>
      Ascending(a) && Ascending(b) && (forall y :: y in a ==> y < x) && (forall y :: y in b ==> x < y)
  {
    if Ascending(a + [x] + b) {
      AscendingSplit(a, x, b);
    }
    if Ascending(a) && Ascending(b) && (forall y :: y in a ==> y < x) && (forall y :: y in b ==> x < y) {
      AscendingJoin(a, x, b);
    }
  }

  /** Search-tree order holds exactly when the traversal is strictly
      ascending, so it lists every key once and in order. */
  lemma {:induction false} OrderedIffAscending(t: Tree)
    ensures Ordered(t) <==> Ascending(InOrder(t))
  {
    match t
    case Nil =>
    case Node(x, _, l, r) =>
      OrderedIffAscending(l);
      OrderedIffAscending(r);
      AscendingConcat(InOrder(l), x, InOrder(r));
  }

  /** Key uniqueness: in an ordered tree no two nodes hold the same key,
      so the number of distinct keys is the number of nodes. */
  lemma {:induction false} OrderedKeysAreUnique(t: Tree)
    requires Ordered(t)
    ensures |Keys(t)| == Size(t)
  {
    match t
    case Nil =>
    case Node(x, _, l, r) =>
      OrderedKeysAreUnique(l);
      OrderedKeysAreUnique(r);
      forall y | y in Keys(l) ensures y !in Keys(r) && y != x {
        assert y < x;
      }
      assert Keys(l) !! Keys(r);
      assert x !in Keys(l) + Keys(r);
      calc {
        |Keys(t)|;
        |(Keys(l) + Keys(r)) + {x}|;
        |Keys(l) + Keys(r)| + 1;
        |Keys(l)| + |Keys(r)| + 1;
      }
  }

  /** Two strictly ascending sequences with the same elements are equal:
      the traversal of an ordered tree is determined by its key set. */
  lemma {:induction false} AscendingUnique(s: seq<int>, u: seq<int>)
    requires Ascending(s) && Ascending(u)
    requires forall y :: y in s <==> y in u
    ensures s == u
    decreases |s|
  {
    if s != [] {
      assert s[0] in s;
      assert s[0] in u;
    }
    if u != [] {
      assert u[0] in u;
      assert u[0] in s;
    }
    if s != [] && u != [] {
      assert s[0] == u[0];
      forall y ensures y in s[1..] <==> y in u[1..] {
        if y in s[1..] {
          var i :| 1 <= i < |s| && s[i] == y;
          assert y in u && y != u[0];
        }
        if y in u[1..] {
          var j :| 1 <= j < |u| && u[j] == y;
          assert y in s && y != s[0];
        }
      }
      AscendingUnique(s[1..], u[1..]);
      assert s == [s[0]] + s[1..] && u == [u[0]] + u[1..];
    }
  }

  // ----- Rotations -----

  /** `rotacaoDireita`: the left child `x` of `y` becomes the root, `x`'s
      right subtree becomes `y`'s left subtree, and the heights of `y`
      (now lower) and then `x` are recomputed. */
  function RotateRight(t: Tree): (r: Tree)
    requires t.Node? && t.left.Node?
    ensures r.Node? && r.right.Node?
    ensures r.key == t.left.key && r.right.key == t.key
    ensures r.left == t.left.left && r.right.left == t.left.right && r.right.right == t.right
    ensures InOrder(r) == InOrder(t)
    ensures Keys(r) == Keys(t)
  {
    var x := t.left;
    var y := Mk(t.key, x.right, t.right);
    Mk(x.key, x.left, y)
  }

  /** `rotacaoEsquerda`: the mirror image of `RotateRight`. */
  function RotateLeft(t: Tree): (r: Tree)
    requires t.Node? && t.right.Node?
    ensures r.Node? && r.left.Node?
    ensures r.key == t.right.key && r.left.key == t.key
    ensures r.right == t.right.right && r.left.right == t.right.left && r.left.left == t.left
    ensures InOrder(r) == InOrder(t)
    ensures Keys(r) == Keys(t)
  {
    var y := t.right;
    var x := Mk(t.key, t.left, y.left);
    Mk(y.key, x, y.right)
  }

  /** Rotations keep search-tree order (they keep the in-order sequence). */
  lemma RotateRightKeepsOrder(t: Tree)
    requires t.Node? && t.left.Node? && Ordered(t)
    ensures Ordered(RotateRight(t))
  {
    OrderedIffAscending(t);
    OrderedIffAscending(RotateRight(t));
  }

  lemma RotateLeftKeepsOrder(t: Tree)
    requires t.Node? && t.right.Node? && Ordered(t)
    ensures Ordered(RotateLeft(t))
  {
    OrderedIffAscending(t);
    OrderedIffAscending(RotateLeft(t));
  }

  /** The three subtrees a rotation moves around stay as they were, and
      the two nodes it moves get correct heights. */
  lemma RotateRightFixesHeights(t: Tree)
    requires t.Node? && t.left.Node?
    requires HeightsOk(t.left.left) && HeightsOk(t.left.right) && HeightsOk(t.right)
    ensures HeightsOk(RotateRight(t))
  {
  }

  lemma RotateLeftFixesHeights(t: Tree)
    requires t.Node? && t.right.Node?
    requires HeightsOk(t.right.left) && HeightsOk(t.right.right) && HeightsOk(t.left)
    ensures HeightsOk(RotateLeft(t))
  {
  }

  // ----- Rebalancing at a node two levels out of balance -----

  /** The state of a node after one child was changed and its height was
      recomputed: both children are AVL trees separated by the node's key. */
  predicate AvlChildren(n: Tree)
  {
    n.Node? && IsAVL(n.left) && IsAVL(n.right) && Separates(n.key, n.left, n.right)
  }

  /** Left side two levels taller, left child not leaning right: one right
      rotation restores the invariant. */
  lemma RotateRightRebalances(n: Tree)
    requires AvlChildren(n) && BalanceFactor(n) == 2 && BalanceFactor(n.left) >= 0
    ensures n.left.Node?
    ensures IsAVL(RotateRight(n)) && Keys(RotateRight(n)) == Keys(n)
    ensures Height(RotateRight(n)) == Height(n.left) + (if BalanceFactor(n.left) == 0 then 1 else 0)
  {
    HeavyChildExists(Mk(n.key, n.left, n.right));
    var r := RotateRight(n);
    RotateRightKeepsOrder(n);
    RotateRightFixesHeights(n);
    assert Balanced(r.right);
  }

  /** Mirror image of `RotateRightRebalances`. */
  lemma RotateLeftRebalances(n: Tree)
    requires AvlChildren(n) && BalanceFactor(n) == -2 && BalanceFactor(n.right) <= 0
    ensures n.right.Node?
    ensures IsAVL(RotateLeft(n)) && Keys(RotateLeft(n)) == Keys(n)
    ensures Height(RotateLeft(n)) == Height(n.right) + (if BalanceFactor(n.right) == 0 then 1 else 0)
  {
    HeavyChildExists(Mk(n.key, n.left, n.right));
    var r := RotateLeft(n);
    RotateLeftKeepsOrder(n);
    RotateLeftFixesHeights(n);
    assert Balanced(r.left);
  }

  /** A node built over two balanced subtrees with correct heights whose
      heights differ by at most one is balanced with a correct height. */
  lemma MkBalanced(x: int, l: Tree, r: Tree)
    requires HeightsOk(l) && Balanced(l) && HeightsOk(r) && Balanced(r)
    requires -1 <= Height(l) - Height(r) <= 1
    ensures HeightsOk(Mk(x, l, r)) && Balanced(Mk(x, l, r))
  {
  }

  /** Left side two levels taller, left child leaning right: a left
      rotation of the child and a right rotation of the node restore the
      invariant, and the subtree ends one level lower than its left side. */
  lemma RotateLeftRightRebalances(n: Tree)
    requires AvlChildren(n) && BalanceFactor(n) == 2 && BalanceFactor(n.left) == -1
    ensures n.left.Node? && n.left.right.Node?
    ensures IsAVL(RotateRight(n.(left := RotateLeft(n.left))))
    ensures Keys(RotateRight(n.(left := RotateLeft(n.left)))) == Keys(n)
    ensures Height(RotateRight(n.(left := RotateLeft(n.left)))) == Height(n.left)
  {
    HeavyChildExists(Mk(n.key, n.left, n.right));
    var l := n.left;
    HeavyChildExists(l);
    var lr := l.right;
    var a, b1, b2, c := l.left, lr.left, lr.right, n.right;
    assert HeightsOk(lr) && Balanced(lr);
    var l' := RotateLeft(l);
    var m := n.(left := l');
    var r := RotateRight(m);
    assert r == Mk(lr.key, Mk(l.key, a, b1), Mk(n.key, b2, c));
    MkBalanced(l.key, a, b1);
    MkBalanced(n.key, b2, c);
    MkBalanced(lr.key, Mk(l.key, a, b1), Mk(n.key, b2, c));
    RotateLeftKeepsOrder(l);
    assert Ordered(m);
    RotateRightKeepsOrder(m);
  }

  /** Mirror image of `RotateLeftRightRebalances`. */
  lemma RotateRightLeftRebalances(n: Tree)
    requires AvlChildren(n) && BalanceFactor(n) == -2 && BalanceFactor(n.right) == 1
    ensures n.right.Node? && n.right.left.Node?
    ensures IsAVL(RotateLeft(n.(right := RotateRight(n.right))))
    ensures Keys(RotateLeft(n.(right := RotateRight(n.right)))) == Keys(n)
    ensures Height(RotateLeft(n.(right := RotateRight(n.right)))) == Height(n.right)
  {
    HeavyChildExists(Mk(n.key, n.left, n.right));
    var rt := n.right;
    HeavyChildExists(rt);
    var rl := rt.left;
    var a, b1, b2, c := n.left, rl.left, rl.right, rt.right;
    assert HeightsOk(rl) && Balanced(rl);
    var r' := RotateRight(rt);
    var m := n.(right := r');
    var r := RotateLeft(m);
    assert r == Mk(rl.key, Mk(n.key, a, b1), Mk(rt.key, b2, c));
    MkBalanced(n.key, a, b1);
    MkBalanced(rt.key, b2, c);
    MkBalanced(rl.key, Mk(n.key, a, b1), Mk(rt.key, b2, c));
    RotateRightKeepsOrder(rt);
    assert Ordered(m);
    RotateLeftKeepsOrder(m);
  }

  // ----- In-order successor -----

  /** The node `encontrarMinimo` stops at: follow left children until
      there is none. In an ordered tree its key is the smallest key. */
  function Leftmost(t: Tree): (m: Tree)
    requires t.Node?
    ensures m.Node? && m.left.Nil?
    ensures m.key in Keys(t)
    ensures Ordered(t) ==> forall y :: y in Keys(t) ==> m.key <= y
  {
    if t.left.Nil? then t else Leftmost(t.left)
  }

  // ----- Height bound -----

  /** Fewest nodes an AVL tree of height `h` can have. */
  function MinNodes(h: nat): nat
  {
    if h == 0 then 0 else if h == 1 then 1 else 1 + MinNodes(h - 1) + MinNodes(h - 2)
  }

  function Pow2(n: nat): nat
  {
    if n == 0 then 1 else 2 * Pow2(n - 1)
  }

  lemma {:induction false} MinNodesMonotone(a: nat, b: nat)
    requires a <= b
    ensures MinNodes(a) <= MinNodes(b)
    decreases b
  {
    if a < b {
      MinNodesMonotone(a, b - 1);
    }
  }

  /** An AVL tree of height `h` has at least `MinNodes(h)` nodes. */
  lemma {:induction false} AvlHasMinNodes(t: Tree)
    requires HeightsOk(t) && Balanced(t)
    ensures Size(t) >= MinNodes(Height(t))
  {
    match t
    case Nil =>
    case Node(_, h, l, r) =>
      AvlHasMinNodes(l);
      AvlHasMinNodes(r);
      if h >= 2 {
        if Height(l) >= Height(r) {
          MinNodesMonotone(h - 2, Height(r));
        } else {
          MinNodesMonotone(h - 2, Height(l));
        }
      }
  }

  /** Arithmetic step of `MinNodesSquare`: with `b <= a`, `2p <= a^2` and
      `p <= b^2`, the square of `a + b` is at least `4p`. */
  lemma SquareOfSum(a: nat, b: nat, p: nat)
    requires b <= a && 2 * p <= a * a && p <= b * b
    ensures 4 * p <= (a + b) * (a + b)
  {
    assert (a + b) * (a + b) == a * a + 2 * (a * b) + b * b;
    assert a * b - b * b == (a - b) * b;
  }

  /** Squaring is monotone on natural numbers. */
  lemma SquareMonotone(m: nat, n: nat)
    requires m <= n
    ensures m * m <= n * n
  {
    assert n * n - m * m == (n - m) * (n + m);
  }

  /** The sparsest AVL trees grow by a factor of at least the square root
      of two per level: `MinNodes(h) + 1` is a Fibonacci-like sum whose
      square at least doubles with each level. */
  lemma {:induction false} MinNodesSquare(h: nat)
    ensures Pow2(h) <= (MinNodes(h) + 1) * (MinNodes(h) + 1)
  {
    if h >= 2 {
      MinNodesSquare(h - 1);
      MinNodesSquare(h - 2);
      MinNodesMonotone(h - 2, h - 1);
      var a, b := MinNodes(h - 1) + 1, MinNodes(h - 2) + 1;
      assert MinNodes(h) + 1 == a + b;
      assert Pow2(h) == 4 * Pow2(h - 2) && Pow2(h - 1) == 2 * Pow2(h - 2);
      SquareOfSum(a, b, Pow2(h - 2));
    }
  }

  /** The logarithmic height guarantee: an AVL tree with `n` keys has a
      height `h` with 2^h <= (n + 1)^2, that is h <= 2 * log2(n + 1). */
  lemma AvlHeightIsLogarithmic(t: Tree)
    requires IsAVL(t)
    ensures Pow2(Height(t)) <= (|Keys(t)| + 1) * (|Keys(t)| + 1)
  {
    AvlHasMinNodes(t);
    MinNodesSquare(Height(t));
    OrderedKeysAreUnique(t);
    SquareMonotone(MinNodes(Height(t)) + 1, |Keys(t)| + 1);
  }
}
