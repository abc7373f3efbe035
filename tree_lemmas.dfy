/**
  Properties of the value view that relate several definitions: what `add`
  does to the ordering and the cached heights, what the traversal, the 2L
  search and the two checks mean on the whole tree, and the values the
  demonstration sequence produces.
 */
module TreeLemmas {
  import opened TreeModel

  // ---------------------------------------------------------------
  // Insertion
  // ---------------------------------------------------------------

  /** `add` keeps the BST ordering. */
  lemma {:induction false} InsertSearchTree(t: Tree, x: int)
    requires SearchTree(t)
    ensures SearchTree(Insert(t, x))
  {
    match t
    case Empty =>
    case Node(d, l, r, _) =>
      if x < d {
        InsertSearchTree(l, x);
      } else if x > d {
        InsertSearchTree(r, x);
      }
  }

  /** `add` re-establishes the cached-height invariant along the insertion path. */
  lemma {:induction false} InsertHeightsValid(t: Tree, x: int)
    requires HeightsValid(t)
    ensures HeightsValid(Insert(t, x))
  {
    match t
    case Empty =>
    case Node(d, l, r, _) =>
      if x < d {
        InsertHeightsValid(l, x);
      } else if x > d {
        InsertHeightsValid(r, x);
      }
  }

  /** Adding a key that is already present changes neither the structure nor any height. */
  lemma {:induction false} InsertPresentUnchanged(t: Tree, x: int)
    requires SearchTree(t) && HeightsValid(t) && x in Contents(t)
    ensures Insert(t, x) == t
  {
    match t
    case Node(d, l, r, _) =>
      if x < d {
        InsertPresentUnchanged(l, x);
      } else if x > d {
        InsertPresentUnchanged(r, x);
      }
  }

  /** Adding a key that is absent adds exactly one node, and the height grows by at most one. */
  lemma {:induction false} InsertAbsentGrows(t: Tree, x: int)
    requires x !in Contents(t)
    ensures Size(Insert(t, x)) == Size(t) + 1
    ensures TrueHeight(t) <= TrueHeight(Insert(t, x)) <= TrueHeight(t) + 1
  {
    match t
    case Empty =>
    case Node(d, l, r, _) =>
      if x < d {
        InsertAbsentGrows(l, x);
      } else {
        InsertAbsentGrows(r, x);
      }
  }

  /** Any tree built only by `add` from the empty tree satisfies both invariants and holds exactly the added keys. */
  lemma {:induction false} BuildInvariants(xs: seq<int>)
    ensures SearchTree(Build(xs)) && HeightsValid(Build(xs))
    ensures IsBST(Build(xs))
    ensures forall y :: y in Contents(Build(xs)) <==> y in xs
  {
    if xs != [] {
      var init, x := xs[..|xs| - 1], xs[|xs| - 1];
      assert xs == init + [x];
      BuildInvariants(init);
      InsertSearchTree(Build(init), x);
      InsertHeightsValid(Build(init), x);
    }
    IsBSTIffSearchTree(Build(xs));
  }

  /** Adding a key larger than every stored key to a right spine extends the spine by one node. */
  lemma {:induction false} InsertMaxOnSpine(t: Tree, x: int)
    requires RightSpine(t) && forall y :: y in Contents(t) ==> y < x
    ensures RightSpine(Insert(t, x))
    ensures TrueHeight(Insert(t, x)) == TrueHeight(t) + 1
    ensures InOrder(Insert(t, x)) == InOrder(t) + [x]
  {
    match t
    case Empty =>
    case Node(d, l, r, _) =>
      assert d in Contents(t);
      InsertMaxOnSpine(r, x);
  }

  /** A right spine of valid cached heights and at least three nodes has root balance at most -2. */
  lemma SpineIsNotAVL(t: Tree)
    requires RightSpine(t) && HeightsValid(t) && TrueHeight(t) >= 3
    ensures !IsAVL(t)
  {
    assert TrueHeight(t) == 1 + TrueHeight(t.right);
    assert Balance(t) <= -2;
  }

  /**
    Adding strictly ascending keys gives a right spine whose height is the
    number of keys; from three keys on the root's balance factor is at most
    -2, so the result is not AVL.
   */
  lemma {:induction false} AscendingBuildIsSkewed(xs: seq<int>)
    requires StrictlyIncreasing(xs)
    ensures RightSpine(Build(xs)) && InOrder(Build(xs)) == xs
    ensures Height(Build(xs)) == TrueHeight(Build(xs)) == |xs|
    ensures |xs| >= 3 ==> !IsAVL(Build(xs))
  {
    if xs != [] {
      var init, x := xs[..|xs| - 1], xs[|xs| - 1];
      assert StrictlyIncreasing(init);
      AscendingBuildIsSkewed(init);
      forall y | y in Contents(Build(init)) ensures y < x {
        var i :| 0 <= i < |init| && init[i] == y;
        assert xs[i] == y;
      }
      InsertMaxOnSpine(Build(init), x);
    }
    BuildInvariants(xs);
    if |xs| >= 3 {
      SpineIsNotAVL(Build(xs));
    }
  }

  // ---------------------------------------------------------------
  // In-order traversal
  // ---------------------------------------------------------------

  /** The in-order traversal has one entry per node. */
  lemma {:induction false} InOrderLength(t: Tree)
    ensures |InOrder(t)| == Size(t)
  {
    if t.Node? {
      InOrderLength(t.left);
      InOrderLength(t.right);
    }
  }

  /** Joining two increasing runs around a separating key gives an increasing run, and conversely. */
  lemma IncreasingAround(a: seq<int>, d: int, b: seq<int>)
    ensures StrictlyIncreasing(a + [d] + b) <==>
      && StrictlyIncreasing(a) && StrictlyIncreasing(b)
      && (forall y :: y in a ==> y < d)
      && (forall y :: y in b ==> d < y)
  {
    var s := a + [d] + b;
    if StrictlyIncreasing(s) {
      forall i, j | 0 <= i < j < |a| ensures a[i] < a[j] {
        assert s[i] == a[i] && s[j] == a[j];
      }
      forall i, j | 0 <= i < j < |b| ensures b[i] < b[j] {
        assert s[|a| + 1 + i] == b[i] && s[|a| + 1 + j] == b[j];
      }
      forall y | y in a ensures y < d {
        var i :| 0 <= i < |a| && a[i] == y;
        assert s[i] == y && s[|a|] == d;
      }
      forall y | y in b ensures d < y {
        var i :| 0 <= i < |b| && b[i] == y;
        assert s[|a| + 1 + i] == y && s[|a|] == d;
      }
    }
    if && StrictlyIncreasing(a) && StrictlyIncreasing(b)
       && (forall y :: y in a ==> y < d)
       && (forall y :: y in b ==> d < y)
    {
      forall i, j | 0 <= i < j < |s| ensures s[i] < s[j] {
        if j < |a| {
          assert s[i] == a[i] && s[j] == a[j];
        } else if j == |a| {
          assert s[i] == a[i] && a[i] in a;
        } else if i < |a| {
          assert s[i] == a[i] && a[i] in a && s[j] == b[j - |a| - 1] && b[j - |a| - 1] in b;
        } else if i == |a| {
          assert s[j] == b[j - |a| - 1] && b[j - |a| - 1] in b;
        } else {
          assert s[i] == b[i - |a| - 1] && s[j] == b[j - |a| - 1];
        }
      }
    }
  }

  /** On an ordered tree the traversal is strictly increasing: the sorted contents. */
  lemma {:induction false} InOrderSorted(t: Tree)
    requires SearchTree(t)
    ensures StrictlyIncreasing(InOrder(t))
  {
    if t.Node? {
      InOrderSorted(t.left);
      InOrderSorted(t.right);
      IncreasingAround(InOrder(t.left), t.data, InOrder(t.right));
    }
  }

  /** Conversely, a tree whose traversal is strictly increasing is ordered. */
  lemma {:induction false} SortedInOrderIsSearchTree(t: Tree)
    requires StrictlyIncreasing(InOrder(t))
    ensures SearchTree(t)
  {
    if t.Node? {
      IncreasingAround(InOrder(t.left), t.data, InOrder(t.right));
      SortedInOrderIsSearchTree(t.left);
      SortedInOrderIsSearchTree(t.right);
    }
  }

  // ---------------------------------------------------------------
  // 2L nodes
  // ---------------------------------------------------------------

  lemma {:induction false} SelectTwoLAppend(a: seq<Tree>, b: seq<Tree>)
    ensures SelectTwoL(a + b) == SelectTwoL(a) + SelectTwoL(b)
  {
    if a == [] {
      assert a + b == b;
    } else {
      assert (a + b)[0] == a[0];
      assert (a + b)[1..] == a[1..] + b;
      SelectTwoLAppend(a[1..], b);
    }
  }

  /** The 2L output is the pre-order sequence of nodes filtered to balance exactly +2. */
  lemma {:induction false} TwoLNodesIsFilteredPreOrder(t: Tree)
    ensures TwoLNodes(t) == SelectTwoL(PreOrder(t))
  {
    if t.Node? {
      TwoLNodesIsFilteredPreOrder(t.left);
      TwoLNodesIsFilteredPreOrder(t.right);
      SelectTwoLAppend([t] + PreOrder(t.left), PreOrder(t.right));
      SelectTwoLAppend([t], PreOrder(t.left));
      assert SelectTwoL([t]) == (if Balance(t) == 2 then [t.data] else []) by {
        assert [t][1..] == [];
      }
    }
  }

  /** A key is reported exactly when some node holding it has balance factor +2 (never -2). */
  lemma {:induction false} TwoLNodesMembers(t: Tree, x: int)
    ensures x in TwoLNodes(t) <==> exists s :: s in Subtrees(t) && s.Node? && s.data == x && Balance(s) == 2
  {
    if t.Node? {
      TwoLNodesMembers(t.left, x);
      TwoLNodesMembers(t.right, x);
      if x in TwoLNodes(t) && x !in TwoLNodes(t.left) && x !in TwoLNodes(t.right) {
        assert t in Subtrees(t);
      }
    }
  }

  /** An AVL-balanced tree has no 2L node. */
  lemma {:induction false} AVLHasNoTwoLNodes(t: Tree)
    requires IsAVL(t)
    ensures TwoLNodes(t) == []
  {
    if t.Node? {
      AVLHasNoTwoLNodes(t.left);
      AVLHasNoTwoLNodes(t.right);
    }
  }

  // ---------------------------------------------------------------
  // isBST
  // ---------------------------------------------------------------

  /** `isBST(node, min, max)` holds iff the subtree is ordered and all its keys lie strictly inside the bounds. */
  lemma {:induction false} IsBSTWithinMeaning(t: Tree, lo: Option<int>, hi: Option<int>)
    ensures IsBSTWithin(t, lo, hi) <==> SearchTree(t) && forall y :: y in Contents(t) ==> InBounds(y, lo, hi)
  {
    match t
    case Empty =>
    case Node(d, l, r, _) =>
      IsBSTWithinMeaning(l, lo, Some(d));
      IsBSTWithinMeaning(r, Some(d), hi);
      if IsBSTWithin(t, lo, hi) {
        assert InBounds(d, lo, hi);
        forall y | y in Contents(l) ensures y < d {
          assert InBounds(y, lo, Some(d));
        }
        forall y | y in Contents(r) ensures d < y {
          assert InBounds(y, Some(d), hi);
        }
        forall y | y in Contents(t) ensures InBounds(y, lo, hi) {
          if y in Contents(l) {
            assert InBounds(y, lo, Some(d));
          } else if y in Contents(r) {
            assert InBounds(y, Some(d), hi);
          }
        }
      }
      if SearchTree(t) && forall y :: y in Contents(t) ==> InBounds(y, lo, hi) {
        assert d in Contents(t);
        assert InBounds(d, lo, hi);
        forall y | y in Contents(l) ensures InBounds(y, lo, Some(d)) {
          assert y in Contents(t);
        }
        forall y | y in Contents(r) ensures InBounds(y, Some(d), hi) {
          assert y in Contents(t);
        }
        assert IsBSTWithin(l, lo, Some(d)) && IsBSTWithin(r, Some(d), hi);
        assert !(hi.Some? && d >= hi.value) && !(lo.Some? && d <= lo.value);
      }
  }

  /** `isBST()` is exactly the BST ordering invariant. */
  lemma IsBSTIffSearchTree(t: Tree)
    ensures IsBST(t) <==> SearchTree(t)
  {
    IsBSTWithinMeaning(t, None, None);
  }

  /** `isBST()` holds iff the in-order traversal is strictly increasing. */
  lemma IsBSTIffInOrderIncreasing(t: Tree)
    ensures IsBST(t) <==> StrictlyIncreasing(InOrder(t))
  {
    IsBSTIffSearchTree(t);
    if SearchTree(t) {
      InOrderSorted(t);
    }
    if StrictlyIncreasing(InOrder(t)) {
      SortedInOrderIsSearchTree(t);
    }
  }

  // ---------------------------------------------------------------
  // isAVL
  // ---------------------------------------------------------------

  /** `isAVL()` reads only the shape and the cached heights, never the keys. */
  lemma {:induction false} IsAVLIgnoresKeys(t: Tree)
    ensures IsAVL(Shape(t)) == IsAVL(t)
  {
    if t.Node? {
      IsAVLIgnoresKeys(t.left);
      IsAVLIgnoresKeys(t.right);
      assert Height(Shape(t.left)) == Height(t.left);
      assert Height(Shape(t.right)) == Height(t.right);
    }
  }

  // ---------------------------------------------------------------
  // The demonstration sequence
  // ---------------------------------------------------------------

  /** The tree the code builds from 50, 30, 70, 20, 40, 60, 80, 10, 5 added in that order. */
  function DemoTree(): Tree {
    Node(50,
      Node(30, Node(20, Node(10, Node(5, Empty, Empty, 1), Empty, 2), Empty, 3), Node(40, Empty, Empty, 1), 4),
      Node(70, Node(60, Empty, Empty, 1), Node(80, Empty, Empty, 1), 2),
      5)
  }

  /** The first four insertions of the demonstration sequence. */
  lemma DemoBuildFour()
    ensures Build([50, 30, 70, 20]) == Node(50, Node(30, Node(20, Empty, Empty, 1), Empty, 2), Node(70, Empty, Empty, 1), 3)
  {
    assert [50][..0] == [];
    assert Build([50]) == Node(50, Empty, Empty, 1);
    assert [50, 30][..1] == [50];
    assert Build([50, 30]) == Node(50, Node(30, Empty, Empty, 1), Empty, 2);
    assert [50, 30, 70][..2] == [50, 30];
    assert Build([50, 30, 70]) == Node(50, Node(30, Empty, Empty, 1), Node(70, Empty, Empty, 1), 2);
    assert [50, 30, 70, 20][..3] == [50, 30, 70];
  }

  /** The first seven insertions of the demonstration sequence. */
  lemma DemoBuildSeven()
    ensures Build([50, 30, 70, 20, 40, 60, 80]) ==
      Node(50, Node(30, Node(20, Empty, Empty, 1), Node(40, Empty, Empty, 1), 2),
        Node(70, Node(60, Empty, Empty, 1), Node(80, Empty, Empty, 1), 2), 3)
  {
    DemoBuildFour();
    assert [50, 30, 70, 20, 40][..4] == [50, 30, 70, 20];
    assert Build([50, 30, 70, 20, 40]) == Node(50, Node(30, Node(20, Empty, Empty, 1), Node(40, Empty, Empty, 1), 2), Node(70, Empty, Empty, 1), 3);
    assert [50, 30, 70, 20, 40, 60][..5] == [50, 30, 70, 20, 40];
    assert Build([50, 30, 70, 20, 40, 60]) == Node(50, Node(30, Node(20, Empty, Empty, 1), Node(40, Empty, Empty, 1), 2), Node(70, Node(60, Empty, Empty, 1), Empty, 2), 3);
    assert [50, 30, 70, 20, 40, 60, 80][..6] == [50, 30, 70, 20, 40, 60];
  }

  /** The first eight insertions of the demonstration sequence. */
  lemma DemoBuildEight()
    ensures Build([50, 30, 70, 20, 40, 60, 80, 10]) ==
      Node(50, Node(30, Node(20, Node(10, Empty, Empty, 1), Empty, 2), Node(40, Empty, Empty, 1), 3),
        Node(70, Node(60, Empty, Empty, 1), Node(80, Empty, Empty, 1), 2), 4)
  {
    DemoBuildSeven();
    assert [50, 30, 70, 20, 40, 60, 80, 10][..7] == [50, 30, 70, 20, 40, 60, 80];
  }

  /** Adding 50, 30, 70, 20, 40, 60, 80, 10, 5 in that order to an empty tree gives DemoTree. */
  lemma DemoBuild()
    ensures Build([50, 30, 70, 20, 40, 60, 80, 10, 5]) == DemoTree()
  {
    DemoBuildEight();
    var xs := [50, 30, 70, 20, 40, 60, 80, 10, 5];
    assert xs[..8] == [50, 30, 70, 20, 40, 60, 80, 10];
    assert Build(xs) == Insert(Build(xs[..8]), 5);
  }

  /** The in-order output on the demonstration tree lists all nine keys, 10 and 5 included. */
  lemma DemoInOrder()
    ensures InOrder(DemoTree()) == [5, 10, 20, 30, 40, 50, 60, 70, 80]
  {
    var t := DemoTree();
    assert InOrder(Node(5, Empty, Empty, 1)) == [5];
    assert InOrder(t.left.left.left) == [5, 10];
    assert InOrder(t.left.left) == [5, 10, 20];
    assert InOrder(t.left) == [5, 10, 20, 30, 40];
    assert InOrder(t.right) == [60, 70, 80];
  }

  /** Cached heights on the demonstration tree: root 5, node 30 is 4, node 80 is 1. */
  lemma DemoHeights()
    ensures var t := DemoTree();
      && t.Node? && t.left.Node? && t.right.Node?
      && t.left.data == 30 && t.right.right.Node? && t.right.right.data == 80
      && Height(t) == 5 && Height(t.left) == 4 && Height(t.right.right) == 1
  {
  }

  lemma SumDepthsLeaf(x: int, depth: int)
    ensures SumDepths(Node(x, Empty, Empty, 1), depth) == depth - 2
  {
  }

  /**
    `sumDepths` of the demonstration tree with its root at `depth`; at depth 0,
    what `sumDepths()` returns, this is 7 (true depth sum 17, minus 9 nodes, minus 1).
   */
  lemma DemoSumDepths(depth: int)
    ensures SumDepths(DemoTree(), depth) == 9 * depth + 7
  {
    var d := depth;
    SumDepthsLeaf(5, d + 4);
    SumDepthsLeaf(40, d + 2);
    SumDepthsLeaf(60, d + 2);
    SumDepthsLeaf(80, d + 2);
    assert SumDepths(Node(10, Node(5, Empty, Empty, 1), Empty, 2), d + 3) == 2 * d + 4;
    assert SumDepths(Node(20, Node(10, Node(5, Empty, Empty, 1), Empty, 2), Empty, 3), d + 2) == 3 * d + 5;
    assert SumDepths(DemoTree().left, d + 1) == 5 * d + 6;
    assert SumDepths(DemoTree().right, d + 1) == 3 * d + 1;
  }

  /** The demonstration tree passes the bounds-based check. */
  lemma DemoIsBST()
    ensures IsBST(DemoTree())
  {
    var t := DemoTree();
    assert IsBSTWithin(t.left.left, None, Some(30));
    assert IsBSTWithin(t.left, None, Some(50));
    assert IsBSTWithin(t.right, Some(50), None);
  }

  /** The 2L search on the left subtree of the demonstration tree reports 30 and 20. */
  lemma DemoTwoLNodesLeft()
    ensures TwoLNodes(DemoTree().left) == [30, 20]
  {
    assert TwoLNodes(DemoTree().left.left) == [20];
  }

  /** The 2L search on the right subtree of the demonstration tree reports nothing. */
  lemma DemoTwoLNodesRight()
    ensures TwoLNodes(DemoTree().right) == []
  {
  }

  /** The 2L search on the demonstration tree reports 50, 30 and 20. */
  lemma DemoTwoLNodes()
    ensures TwoLNodes(DemoTree()) == [50, 30, 20]
  {
    DemoTwoLNodesLeft();
    DemoTwoLNodesRight();
  }

  /** The demonstration tree is a BST but not AVL; its 2L nodes are 50, 30 and 20. */
  lemma DemoChecks()
    ensures IsBST(DemoTree()) && !IsAVL(DemoTree())
    ensures TwoLNodes(DemoTree()) == [50, 30, 20]
  {
    DemoIsBST();
    DemoTwoLNodes();
  }
}
