/**
  Value view of the binary search tree. A `Tree` holds exactly what a
  chain of Java `Node` objects holds: the key, the two (possibly absent)
  children and the cached `height` field. The query functions below follow
  the recursive helpers of `BinarySearchTree` branch by branch, and each one's
  contract states what it means in terms of the ghost definitions after
  them; module TreeLemmas proves the properties that relate several of
  them.
 */
module TreeModel {

  /** An absent bound of the `isBST` helper is `None`. */
  datatype Option<T> = None | Some(value: T)

  /** A subtree: `Empty` is a null node reference. */
  datatype Tree = Empty | Node(data: int, left: Tree, right: Tree, height: int)

  // ---------------------------------------------------------------
  // The source's operations
  // ---------------------------------------------------------------

  /**
    `height(N)`: 0 for an absent node, otherwise the cached field, never
    recomputed. Where the cached-height invariant holds, that field is the
    true height of the subtree.
   */
  function Height(t: Tree): (h: int)
    ensures HeightsValid(t) ==> h == TrueHeight(t)
  {
    CachedFieldIsTrueHeight(t);
    if t.Empty? then 0 else t.height
  }

  /** Under the cached-height invariant every node's field is its true height. */
  lemma {:induction false} CachedFieldIsTrueHeight(t: Tree)
    ensures HeightsValid(t) && t.Node? ==> t.height == TrueHeight(t)
  {
    if t.Node? {
      CachedFieldIsTrueHeight(t.left);
      CachedFieldIsTrueHeight(t.right);
    }
  }

  function Max(a: int, b: int): int {
    if a >= b then a else b
  }

  /** `getBalance(N)`: left height minus right height, 0 for an absent node. */
  function Balance(t: Tree): (b: int)
    ensures t.Node? && HeightsValid(t) ==> b == TrueHeight(t.left) - TrueHeight(t.right)
  {
    if t.Empty? then 0 else Height(t.left) - Height(t.right)
  }

  /** A node whose height field is set the way `updateHeight` sets it. */
  function Join(x: int, l: Tree, r: Tree): (n: Tree)
    ensures n.Node? && n.data == x && n.left == l && n.right == r
    ensures HeightsValid(l) && HeightsValid(r) ==> HeightsValid(n)
  {
    Node(x, l, r, 1 + Max(Height(l), Height(r)))
  }

  /**
    The recursive `add(node, data)`: a new leaf of height 1 at the empty
    spot, descent by three-way comparison, a duplicate returns its node
    untouched, and every node on the way back up gets its height recomputed
    from its children's cached heights.
   */
  function Insert(t: Tree, x: int): (r: Tree)
    ensures r.Node?
    ensures Contents(r) == Contents(t) + {x}
  {
    match t
    case Empty => Node(x, Empty, Empty, 1)
    case Node(d, l, r, _) =>
      if x < d then Join(d, Insert(l, x), r)
      else if x > d then Join(d, l, Insert(r, x))
      else t
  }

  /** The keys `printInOrder(node)` prints, in the order it prints them. */
  function InOrder(t: Tree): (s: seq<int>)
    ensures forall y :: y in s <==> y in Contents(t)
  {
    match t
    case Empty => []
    case Node(d, l, r, _) => InOrder(l) + [d] + InOrder(r)
  }

  /**
    `sumDepths(node, depth)`. Its -1 for an absent subtree makes the result
    the true depth sum minus the node count minus one.
   */
  function SumDepths(t: Tree, depth: int): (s: int)
    ensures s == DepthSum(t, depth) - Size(t) - 1
  {
    match t
    case Empty => -1
    case Node(_, l, r, _) => depth + SumDepths(l, depth + 1) + SumDepths(r, depth + 1)
  }

  /** The keys `findAndPrint2LNodes(node)` prints: pre-order, balance exactly +2. */
  function TwoLNodes(t: Tree): (s: seq<int>)
    ensures forall y :: y in s ==> y in Contents(t)
  {
    match t
    case Empty => []
    case Node(d, l, r, _) =>
      (if Balance(t) == 2 then [d] else []) + TwoLNodes(l) + TwoLNodes(r)
  }

  /** `isBST(node, min, max)`: the upper bound is tested first, then the lower one. */
  function IsBSTWithin(t: Tree, lo: Option<int>, hi: Option<int>): (b: bool)
    ensures b ==> SearchTree(t) && forall y :: y in Contents(t) ==> InBounds(y, lo, hi)
  {
    match t
    case Empty => true
    case Node(d, l, r, _) =>
      if hi.Some? && d >= hi.value then false
      else if lo.Some? && d <= lo.value then false
      else IsBSTWithin(l, lo, Some(d)) && IsBSTWithin(r, Some(d), hi)
  }

  /** `isBST()`: the root has no bounds. */
  function IsBST(t: Tree): (b: bool)
    ensures b ==> SearchTree(t)
  {
    IsBSTWithin(t, None, None)
  }

  /** `isAVL(node)`: every balance factor within [-1, 1]. */
  function IsAVL(t: Tree): (b: bool)
    ensures b <==> forall s :: s in Subtrees(t) ==> -1 <= Balance(s) <= 1
  {
    match t
    case Empty => true
    case Node(_, l, r, _) =>
      var balance := Balance(t);
      if balance < -1 || balance > 1 then false else IsAVL(l) && IsAVL(r)
  }

  /** The tree that a fresh `BinarySearchTree` holds after `add` of each key of `xs` in turn. */
  function Build(xs: seq<int>): (r: Tree)
    ensures forall y :: y in Contents(r) <==> y in xs
  {
    if xs == [] then Empty else Insert(Build(xs[..|xs| - 1]), xs[|xs| - 1])
  }

  // ---------------------------------------------------------------
  // Meanings the operations are proved against
  // ---------------------------------------------------------------

  /** The set of keys stored in a tree. */
  ghost function Contents(t: Tree): set<int> {
    match t
    case Empty => {}
    case Node(d, l, r, _) => Contents(l) + {d} + Contents(r)
  }

  /** The number of nodes. */
  ghost function Size(t: Tree): nat {
    match t
    case Empty => 0
    case Node(_, l, r, _) => Size(l) + 1 + Size(r)
  }

  /** The height computed from the shape alone (absent tree 0, leaf 1). */
  ghost function TrueHeight(t: Tree): nat {
    match t
    case Empty => 0
    case Node(_, l, r, _) => 1 + (if TrueHeight(l) >= TrueHeight(r) then TrueHeight(l) else TrueHeight(r))
  }

  /** The cached-height invariant: every field equals 1 + the larger child field (absent child 0). */
  ghost predicate HeightsValid(t: Tree) {
    match t
    case Empty => true
    case Node(_, l, r, h) =>
      && h == 1 + Max(if l.Empty? then 0 else l.height, if r.Empty? then 0 else r.height)
      && HeightsValid(l) && HeightsValid(r)
  }

  /** BST ordering: all keys on the left strictly smaller, all keys on the right strictly larger. */
  ghost predicate SearchTree(t: Tree) {
    match t
    case Empty => true
    case Node(d, l, r, _) =>
      && (forall y :: y in Contents(l) ==> y < d)
      && (forall y :: y in Contents(r) ==> d < y)
      && SearchTree(l) && SearchTree(r)
  }

  /** `x` lies strictly inside the bounds; an absent bound does not constrain. */
  ghost predicate InBounds(x: int, lo: Option<int>, hi: Option<int>) {
    (lo.Some? ==> lo.value < x) && (hi.Some? ==> x < hi.value)
  }

  ghost predicate StrictlyIncreasing(s: seq<int>) {
    forall i, j :: 0 <= i < j < |s| ==> s[i] < s[j]
  }

  /** The sum of the true depths of all nodes when the root sits at `depth`. */
  ghost function DepthSum(t: Tree, depth: int): int {
    match t
    case Empty => 0
    case Node(_, l, r, _) => depth + DepthSum(l, depth + 1) + DepthSum(r, depth + 1)
  }

  /** Every node of the tree, as the subtree it roots. */
  ghost function Subtrees(t: Tree): set<Tree> {
    match t
    case Empty => {}
    case Node(_, l, r, _) => {t} + Subtrees(l) + Subtrees(r)
  }

  /** Every node of the tree, as the subtree it roots, in pre-order. */
  ghost function PreOrder(t: Tree): seq<Tree> {
    match t
    case Empty => []
    case Node(_, l, r, _) => [t] + PreOrder(l) + PreOrder(r)
  }

  /** The keys of those nodes of `ss` whose balance factor is exactly +2, in order. */
  ghost function SelectTwoL(ss: seq<Tree>): seq<int> {
    if ss == [] then []
    else (if ss[0].Node? && Balance(ss[0]) == 2 then [ss[0].data] else []) + SelectTwoL(ss[1..])
  }

  /** No node has a left child: the list a plain BST degrades to under ascending insertions. */
  ghost predicate RightSpine(t: Tree) {
    match t
    case Empty => true
    case Node(_, l, r, _) => l.Empty? && RightSpine(r)
  }

  /** The tree with every key replaced by 0: shape and cached heights only. */
  ghost function Shape(t: Tree): Tree {
    match t
    case Empty => Empty
    case Node(_, l, r, h) => Node(0, Shape(l), Shape(r), h)
  }
}
