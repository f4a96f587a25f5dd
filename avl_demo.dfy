/**
 * The scenario of `main` (AVL.c:194-222): ten insertions, one of them a
 * duplicate, the in-order listing, the deletion of 10 and the listing
 * again. The two listings are proved from the contracts alone.
 */
module AvlDemo {
  import opened AvlModel
  import opened AvlTrees

  /** One `insereNaAVL` call of `main`, seen through the key set only:
      the handle stays valid and gains the key. */
  method InsertKey(avl: AvlTree, k: int, ghost K: set<int>)
    requires avl.Valid() && Keys(avl.Model()) == K
    modifies avl.Repr
    ensures avl.Valid() && fresh(avl.Repr - old(avl.Repr))
    ensures Keys(avl.Model()) == K + {k}
  {
    avl.Insert(k);
  }

  /** One `removeNaAVL` call of `main`, seen through the key set only. */
  method RemoveKey(avl: AvlTree, k: int, ghost K: set<int>)
    requires avl.Valid() && Keys(avl.Model()) == K
    modifies avl.Repr
    ensures avl.Valid() && avl.Repr <= old(avl.Repr)
    ensures Keys(avl.Model()) == K - {k}
  {
    avl.Remove(k);
  }

  /** `s` lists the keys `K` in ascending order, each once. */
  ghost predicate Lists(s: seq<int>, K: set<int>)
  {
    Ascending(s) && forall y :: y in s <==> y in K
  }

  /** One `emOrdem` listing of `main`: the keys in ascending order, each
      key of the tree once. */
  method ListKeys(avl: AvlTree, ghost K: set<int>) returns (s: seq<int>)
    requires avl.Valid() && Keys(avl.Model()) == K
    ensures Lists(s, K)
  {
    s := avl.InOrderKeys();
  }

  /** The only ascending listing of the keys held after the insertions. */
  lemma ListedBeforeRemoval(s: seq<int>)
    requires Lists(s, {8, 9, 10, 11, 12, 13, 14, 15, 16})
    ensures s == [8, 9, 10, 11, 12, 13, 14, 15, 16]
  {
    AscendingUnique(s, [8, 9, 10, 11, 12, 13, 14, 15, 16]);
  }

  /** The only ascending listing of the keys held after removing 10. */
  lemma ListedAfterRemoval(s: seq<int>)
    requires Lists(s, {8, 9, 10, 11, 12, 13, 14, 15, 16} - {10})
    ensures s == [8, 9, 11, 12, 13, 14, 15, 16]
  {
    AscendingUnique(s, [8, 9, 11, 12, 13, 14, 15, 16]);
  }

  /** The key set after the ten insertions of `main`, as a step of
      `Build`: stated apart so that the set arithmetic is done outside the
      heap reasoning of `Build`. */
  lemma InsertedKeys()
    ensures {} + {12} + {15} + {14} + {16} + {10} + {9} + {12} + {13} + {11} + {8}
         == {8, 9, 10, 11, 12, 13, 14, 15, 16}
  {
  }

  /** The first five insertions of `main` (AVL.c:198-202). */
  method InsertFirstFive(avl: AvlTree)
    requires avl.Valid() && Keys(avl.Model()) == {}
    modifies avl.Repr
    ensures avl.Valid() && fresh(avl.Repr - old(avl.Repr))
    ensures Keys(avl.Model()) == {} + {12} + {15} + {14} + {16} + {10}
  {
    ghost var K: set<int> := {};
    InsertKey(avl, 12, K);
    K := K + {12};
    assert fresh(avl.Repr - old(avl.Repr));
    InsertKey(avl, 15, K);
    K := K + {15};
    assert fresh(avl.Repr - old(avl.Repr));
    InsertKey(avl, 14, K);
    K := K + {14};
    assert fresh(avl.Repr - old(avl.Repr));
    InsertKey(avl, 16, K);
    K := K + {16};
    assert fresh(avl.Repr - old(avl.Repr));
    InsertKey(avl, 10, K);
  }

  /** The last five insertions of `main` (AVL.c:203-207); the second 12 is
      a duplicate and changes nothing. */
  method InsertLastFive(avl: AvlTree, ghost K: set<int>)
    requires avl.Valid() && Keys(avl.Model()) == K
    modifies avl.Repr
    ensures avl.Valid() && fresh(avl.Repr - old(avl.Repr))
    ensures Keys(avl.Model()) == K + {9} + {12} + {13} + {11} + {8}
  {
    ghost var K' := K;
    InsertKey(avl, 9, K');
    K' := K' + {9};
    assert fresh(avl.Repr - old(avl.Repr));
    InsertKey(avl, 12, K');
    K' := K' + {12};
    assert fresh(avl.Repr - old(avl.Repr));
    InsertKey(avl, 13, K');
    K' := K' + {13};
    assert fresh(avl.Repr - old(avl.Repr));
    InsertKey(avl, 11, K');
    K' := K' + {11};
    assert fresh(avl.Repr - old(avl.Repr));
    InsertKey(avl, 8, K');
  }

  /** The ten insertions of `main` (AVL.c:198-207) into a new handle. */
  method Build() returns (avl: AvlTree)
    ensures avl.Valid() && fresh(avl.Repr)
    ensures Keys(avl.Model()) == {8, 9, 10, 11, 12, 13, 14, 15, 16}
  {
    avl := new AvlTree();
    InsertFirstFive(avl);
    InsertLastFive(avl, {} + {12} + {15} + {14} + {16} + {10});
    InsertedKeys();
  }

  /** `main` (AVL.c:194-222): the keys it lists after the insertions and
      again after removing 10. */
  method Demo() returns (before: seq<int>, after: seq<int>)
    ensures before == [8, 9, 10, 11, 12, 13, 14, 15, 16]
    ensures after == [8, 9, 11, 12, 13, 14, 15, 16]
  {
    var avl := Build();
    before := ListKeys(avl, {8, 9, 10, 11, 12, 13, 14, 15, 16});
    ListedBeforeRemoval(before);
    RemoveKey(avl, 10, {8, 9, 10, 11, 12, 13, 14, 15, 16});
    after := ListKeys(avl, {8, 9, 10, 11, 12, 13, 14, 15, 16} - {10});
    ListedAfterRemoval(after);
  }
}
