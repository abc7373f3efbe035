/**
  The Java `BinarySearchTree` class and its nested `Node` class, on the heap.
  Each node carries a ghost footprint `Repr` and a ghost value `Model` (a
  TreeModel.Tree); `Node.Valid()` ties both to the real fields, so that the
  in-place insertion can be stated as `Model == Insert(old(Model), x)` and the
  recursive read-only helpers as equal to the TreeModel functions they walk.
 */
module Bst {
  import TreeModel
  import TreeLemmas

  class Node {
    var data: int
    var left: Node?
    var right: Node?
    var height: int

    ghost var Repr: set<object>
    ghost var Model: TreeModel.Tree

    /** The subtree rooted here is a strict out-tree whose value is `Model`. */
    ghost predicate Valid()
      reads this, Repr
      ensures Valid() ==> this in Repr
      decreases Repr
    {
      && this in Repr
      && (left != null ==>
            left in Repr && left.Repr <= Repr && this !in left.Repr && left.Valid())
      && (right != null ==>
            right in Repr && right.Repr <= Repr && this !in right.Repr && right.Valid())
      && (left != null && right != null ==> left.Repr !! right.Repr)
      && Model == TreeModel.Node(data, ModelOf(left), ModelOf(right), height)
    }

    /** A new node is a leaf of height 1. */
    constructor (data: int)
      ensures Valid() && fresh(Repr)
      ensures left == null && right == null
      ensures Model == TreeModel.Node(data, TreeModel.Empty, TreeModel.Empty, 1)
    {
      this.data := data;
      this.left := null;
      this.right := null;
      this.height := 1;
      Repr := {this};
      Model := TreeModel.Node(data, TreeModel.Empty, TreeModel.Empty, 1);
    }
  }

  /** The value of a possibly absent subtree. */
  ghost function ModelOf(n: Node?): TreeModel.Tree
    reads n
  {
    if n == null then TreeModel.Empty else n.Model
  }

  /** The footprint of a possibly absent subtree. */
  ghost function ReprOf(n: Node?): set<object>
    reads n
  {
    if n == null then {} else n.Repr
  }

  class BinarySearchTree {
    var root: Node?

    ghost var Repr: set<object>
    ghost var Model: TreeModel.Tree

    /** The object invariant: a well-formed node structure that is ordered and whose cached heights are right. */
    ghost predicate Valid()
      reads this, Repr
    {
      && this in Repr
      && (root != null ==> root in Repr && root.Repr <= Repr && this !in root.Repr && root.Valid())
      && Model == ModelOf(root)
      && TreeModel.SearchTree(Model)
      && TreeModel.HeightsValid(Model)
    }

    /** An empty tree. */
    constructor ()
      ensures Valid() && fresh(Repr)
      ensures Model == TreeModel.Empty
    {
      root := null;
      Repr := {this};
      Model := TreeModel.Empty;
    }

    /** `height(N)`: reads the cached field and does not recompute it. */
    static function HeightOf(n: Node?): (h: int)
      reads n, if n != null then n.Repr else {}
      requires n != null ==> n.Valid()
      ensures h == TreeModel.Height(ModelOf(n))
    {
      if n != null then n.height else 0
    }

    /**
      `updateHeight(n)`: recomputes the node's height field from its
      children's fields. The ghost footprint and value are brought up to date
      alongside, so that with valid, disjoint children the node is valid again.
     */
    static method UpdateHeight(n: Node?)
      requires n != null && n.left != null ==> n.left.Valid() && n !in n.left.Repr
      requires n != null && n.right != null ==> n.right.Valid() && n !in n.right.Repr
      requires n != null && n.left != null && n.right != null ==> n.left.Repr !! n.right.Repr
      modifies n
      ensures n != null ==>
        && n.Valid()
        && n.data == old(n.data) && n.left == old(n.left) && n.right == old(n.right)
        && n.Model == TreeModel.Join(n.data, ModelOf(n.left), ModelOf(n.right))
        && n.Repr == {n} + ReprOf(n.left) + ReprOf(n.right)
    {
      if n != null {
        var hl := HeightOf(n.left);
        var hr := HeightOf(n.right);
        n.height := 1 + TreeModel.Max(hl, hr);
        n.Repr := {n} + ReprOf(n.left) + ReprOf(n.right);
        n.Model := TreeModel.Node(n.data, ModelOf(n.left), ModelOf(n.right), n.height);
      }
    }

    /** `getBalance(N)`: left height minus right height from the cached fields, 0 for an absent node. */
    static function BalanceOf(n: Node?): (b: int)
      reads n, if n != null then n.Repr else {}
      requires n != null ==> n.Valid()
      ensures b == TreeModel.Balance(ModelOf(n))
    {
      if n == null then 0 else HeightOf(n.left) - HeightOf(n.right)
    }

    /** `add(data)`: inserts in place; a key already present leaves the tree exactly as it was. */
    method Add(x: int)
      requires Valid()
      modifies Repr
      ensures Valid() && fresh(Repr - old(Repr))
      ensures Model == TreeModel.Insert(old(Model), x)
      ensures TreeModel.Contents(Model) == TreeModel.Contents(old(Model)) + {x}
      ensures x in TreeModel.Contents(old(Model)) ==> Model == old(Model)
    {
      TreeLemmas.InsertSearchTree(Model, x);
      TreeLemmas.InsertHeightsValid(Model, x);
      if x in TreeModel.Contents(Model) {
        TreeLemmas.InsertPresentUnchanged(Model, x);
      }
      var r := AddAt(root, x);
      root := r;
      Repr := Repr + r.Repr;
      Model := r.Model;
    }

    /**
      The recursive `add(node, data)`. It returns the root of the updated
      subtree: a fresh leaf where `node` is absent, `node` itself otherwise,
      with its links and height rewritten in place.
     */
    static method AddAt(node: Node?, x: int) returns (r: Node)
      requires node != null ==> node.Valid()
      modifies ReprOf(node)
      ensures r.Valid()
      ensures r.Model == TreeModel.Insert(old(ModelOf(node)), x)
      ensures node == null ==> fresh(r.Repr)
      ensures node != null ==> r == node && fresh(r.Repr - old(node.Repr))
      decreases ReprOf(node)
    {
      if node == null {
        r := new Node(x);
        return;
      }
      if x < node.data {
        node.left := AddAt(node.left, x);
      } else if x > node.data {
        node.right := AddAt(node.right, x);
      } else {
        return node;
      }
      UpdateHeight(node);
      r := node;
    }

    /** `height(root)`: thanks to the invariant, the true height of the tree. */
    method Height() returns (h: int)
      requires Valid()
      ensures h == TreeModel.TrueHeight(Model)
    {
      h := HeightOf(root);
    }

    /** `printInOrder()`, producing the keys instead of printing them: the sorted contents. */
    method InOrder() returns (s: seq<int>)
      requires Valid()
      ensures s == TreeModel.InOrder(Model)
      ensures TreeModel.StrictlyIncreasing(s)
      ensures forall y :: y in s <==> y in TreeModel.Contents(Model)
    {
      s := InOrderAt(root);
      TreeLemmas.InOrderSorted(Model);
    }

    /** `printInOrder(node)`: left subtree, then the node, then the right subtree. */
    static method InOrderAt(node: Node?) returns (s: seq<int>)
      requires node != null ==> node.Valid()
      ensures s == TreeModel.InOrder(ModelOf(node))
      decreases ReprOf(node)
    {
      if node == null {
        return [];
      }
      var a := InOrderAt(node.left);
      var b := InOrderAt(node.right);
      s := a + [node.data] + b;
    }

    /** `sumDepths()`: the true depth sum minus the node count minus one. */
    method SumDepths() returns (s: int)
      requires Valid()
      ensures s == TreeModel.SumDepths(Model, 0)
      ensures s == TreeModel.DepthSum(Model, 0) - TreeModel.Size(Model) - 1
    {
      s := SumDepthsAt(root, 0);
    }

    /** `sumDepths(node, depth)`: -1 for an absent node. */
    static method SumDepthsAt(node: Node?, depth: int) returns (s: int)
      requires node != null ==> node.Valid()
      ensures s == TreeModel.SumDepths(ModelOf(node), depth)
      decreases ReprOf(node)
    {
      if node == null {
        return -1;
      }
      var a := SumDepthsAt(node.left, depth + 1);
      var b := SumDepthsAt(node.right, depth + 1);
      s := depth + a + b;
    }

    /** `findAndPrint2LNodes()`, producing the keys instead of printing them. */
    method TwoLNodes() returns (s: seq<int>)
      requires Valid()
      ensures s == TreeModel.TwoLNodes(Model)
      ensures s == TreeModel.SelectTwoL(TreeModel.PreOrder(Model))
    {
      s := TwoLNodesAt(root);
      TreeLemmas.TwoLNodesIsFilteredPreOrder(Model);
    }

    /** `findAndPrint2LNodes(node)`: the node if its balance is +2, then the left and the right subtree. */
    static method TwoLNodesAt(node: Node?) returns (s: seq<int>)
      requires node != null ==> node.Valid()
      ensures s == TreeModel.TwoLNodes(ModelOf(node))
      decreases ReprOf(node)
    {
      if node == null {
        return [];
      }
      var balance := BalanceOf(node);
      s := if balance == 2 then [node.data] else [];
      var a := TwoLNodesAt(node.left);
      var b := TwoLNodesAt(node.right);
      s := s + a + b;
    }

    /** `isBST()`: always true on a tree built by `add`. */
    method IsBST() returns (b: bool)
      requires Valid()
      ensures b == TreeModel.IsBST(Model)
      ensures b
    {
      b := IsBSTAt(root, TreeModel.None, TreeModel.None);
      TreeLemmas.IsBSTIffSearchTree(Model);
    }

    /** `isBST(node, min, max)`: every key strictly inside the bounds its ancestors impose. */
    static method IsBSTAt(node: Node?, lo: TreeModel.Option<int>, hi: TreeModel.Option<int>) returns (b: bool)
      requires node != null ==> node.Valid()
      ensures b == TreeModel.IsBSTWithin(ModelOf(node), lo, hi)
      decreases ReprOf(node)
    {
      if node == null {
        return true;
      }
      if hi.Some? && node.data >= hi.value {
        return false;
      }
      if lo.Some? && node.data <= lo.value {
        return false;
      }
      b := IsBSTAt(node.left, lo, TreeModel.Some(node.data));
      if b {
        b := IsBSTAt(node.right, TreeModel.Some(node.data), hi);
      }
    }

    /** `isAVL()`: every node's balance factor lies in [-1, 1]. */
    method IsAVL() returns (b: bool)
      requires Valid()
      ensures b == TreeModel.IsAVL(Model)
      ensures b <==> forall s :: s in TreeModel.Subtrees(Model) ==> -1 <= TreeModel.Balance(s) <= 1
    {
      b := IsAVLAt(root);
    }

    /** `isAVL(node)`: stops at the first node whose balance factor is outside [-1, 1]. */
    static method IsAVLAt(node: Node?) returns (b: bool)
      requires node != null ==> node.Valid()
      ensures b == TreeModel.IsAVL(ModelOf(node))
      decreases ReprOf(node)
    {
      if node == null {
        return true;
      }
      var balance := BalanceOf(node);
      if balance < -1 || balance > 1 {
        return false;
      }
      b := IsAVLAt(node.left);
      if b {
        b := IsAVLAt(node.right);
      }
    }
  }
}
