# Binary search tree with cached heights, in Dafny

This project models `BinarySearchTree`, a plain (never rebalanced) binary
search tree. Its nodes each hold a key, two optional children and a cached
`height` field. The operations are insertion (`add`) and these read-only
queries:

- `height` and `getBalance`
- in-order traversal
- `sumDepths`
- 2L-node detection
- the bounds-based `isBST` check
- the balance-based `isAVL` check

Keys are `int`. The Java class is generic over any `Comparable` type.

The project has three modules:

- `TreeModel` (`tree_model.dfy`) is the value view. `Tree` mirrors a chain
  of Java nodes, cached height included. Each recursive helper of the Java
  class becomes a function that takes the same branches, and its contract
  states what it computes in terms of ghost definitions: the key set
  (`Contents`), node count, true height, the BST ordering (`SearchTree`),
  the cached-height invariant (`HeightsValid`), the true depth sum, and the
  nodes in pre-order.
- `TreeLemmas` (`tree_lemmas.dfy`) proves the properties that relate
  several definitions. `add` keeps the ordering and the cached-height
  invariant and is a no-op on a duplicate. The traversal is sorted exactly
  when the tree is ordered, and each check means what it claims.
- `Bst` (`bst.dfy`) is the heap version: the classes `Node` and
  `BinarySearchTree`. Every node carries a ghost footprint `Repr` and a
  ghost value `Model`. `Add`/`AddAt` insert in place, rewriting `left`,
  `right` and `height` the way the Java code does, and are proved to turn
  `Model` into `Insert(old(Model), x)`. Each recursive read-only helper is a
  method over the nodes, proved equal to its `TreeModel` function. The
  object invariant of `BinarySearchTree` holds both the BST ordering and
  the cached-height invariant, and every public method keeps it.

Where the code and its comments disagree, the model follows the code.

- `sumDepths` returns -1 for an absent subtree. So its result is the true
  depth sum minus the node count minus one. A single-node tree gives -2,
  not 0, and an empty tree gives -1.
- The demonstration in `main` adds 50, 30, 70, 20, 40, 60, 80, 10, 5. Four
  of the comments beside its calls expect values the code does not produce
  (lines 258, 261, 262 and 266 of `src/BinarySearchTree.java`); the comments
  at lines 263, 268 and 270 agree with the code. For that input, the code
  gives:
  - in-order output 5 10 20 30 40 50 60 70 80
  - root height 5, height of node 30 = 4, height of node 80 = 1
  - `sumDepths()` = 7
  - `isBST()` true, `isAVL()` false
  - 2L nodes 50, 30, 20
- The `Demo…` lemmas state these values.

## Model

| member | source | states |
|---|---|---|
| `Bst.Node.constructor` | src/BinarySearchTree.java:19-24 | a new node is a valid leaf with no children and height 1 |
| `Bst.BinarySearchTree.constructor` | src/BinarySearchTree.java:33-35 | a new tree is empty and satisfies the object invariant (ordering and cached heights) |
| `Bst.BinarySearchTree.HeightOf` | src/BinarySearchTree.java:42-46 | `height(N)` returns the node's cached field (0 for an absent node), which is the height recorded in the node's value |
| `Bst.BinarySearchTree.UpdateHeight` | src/BinarySearchTree.java:52-56 | sets the field to 1 + the larger child field, touches no other field, and leaves a node with valid children valid again; an absent node is left alone |
| `Bst.BinarySearchTree.BalanceOf` | src/BinarySearchTree.java:63-67 | `getBalance(N)` is left cached height minus right cached height, 0 for an absent node |
| `Bst.BinarySearchTree.Add` | src/BinarySearchTree.java:73-78 | in-place insertion keeps the object invariant, the new keys are the old keys plus `x`, and a duplicate leaves the tree exactly as it was |
| `Bst.BinarySearchTree.AddAt` | src/BinarySearchTree.java:86-116 | the recursive `add` returns a fresh leaf for an absent node and otherwise the same node, whose subtree value becomes `Insert(old value, x)` |
| `Bst.BinarySearchTree.Height` | src/BinarySearchTree.java:42-46 | `height(root)` read from the cache equals the true height of the tree |
| `Bst.BinarySearchTree.InOrder` | src/BinarySearchTree.java:121-125 | the in-order output is strictly increasing and holds exactly the stored keys |
| `Bst.BinarySearchTree.InOrderAt` | src/BinarySearchTree.java:131-145 | the recursive traversal yields the left subtree's keys, the node's key, then the right subtree's keys |
| `Bst.BinarySearchTree.SumDepths` | src/BinarySearchTree.java:151-153 | `sumDepths()` equals the true depth sum minus the node count minus one |
| `Bst.BinarySearchTree.SumDepthsAt` | src/BinarySearchTree.java:161-168 | `sumDepths(node, depth)` is -1 for an absent node, otherwise `depth` plus both children's results at `depth + 1` |
| `Bst.BinarySearchTree.TwoLNodes` | src/BinarySearchTree.java:173-175 | the 2L output is the pre-order node sequence filtered to balance factor exactly +2 |
| `Bst.BinarySearchTree.TwoLNodesAt` | src/BinarySearchTree.java:180-189 | the recursive helper reports the node if its balance is +2, then the left and then the right subtree |
| `Bst.BinarySearchTree.IsBST` | src/BinarySearchTree.java:195-197 | `isBST()` always returns true on a tree built by `add` |
| `Bst.BinarySearchTree.IsBSTAt` | src/BinarySearchTree.java:205-216 | the bounded check on the nodes returns the bounded check `IsBSTWithin` of the value view |
| `Bst.BinarySearchTree.IsAVL` | src/BinarySearchTree.java:222-224 | `isAVL()` is true iff every node's balance factor lies in [-1, 1] |
| `Bst.BinarySearchTree.IsAVLAt` | src/BinarySearchTree.java:231-240 | the recursive check on the nodes computes the AVL check on the value view |
| `TreeModel.Height` | src/BinarySearchTree.java:42-46 | `height(N)` reads the cached field; where every cached field is 1 + the larger child field, that is the true height of the subtree |
| `TreeModel.CachedFieldIsTrueHeight` | src/BinarySearchTree.java:42-56 | where every cached field is 1 + the larger child field (absent child 0), each node's field is the true height of its subtree |
| `TreeModel.Balance` | src/BinarySearchTree.java:63-67 | `getBalance(N)` on a node with valid cached heights is the true height of the left subtree minus that of the right subtree |
| `TreeModel.Join` | src/BinarySearchTree.java:52-56 | `updateHeight` keeps the key and both children, and a node over children with valid cached heights has a valid cached height itself |
| `TreeModel.Insert` | src/BinarySearchTree.java:86-116 | `add(node, data)` always returns a node, and the keys below it are the old keys plus the new one |
| `TreeModel.InOrder` | src/BinarySearchTree.java:131-145 | the traversal lists exactly the keys stored in the tree |
| `TreeModel.SumDepths` | src/BinarySearchTree.java:161-168 | `sumDepths(node, d)` equals the true depth sum from `d` minus the node count minus one (so -1 on an empty tree) |
| `TreeModel.TwoLNodes` | src/BinarySearchTree.java:180-189 | every key the 2L search reports is a key stored in the tree |
| `TreeModel.IsBSTWithin` | src/BinarySearchTree.java:205-216 | when `isBST(node, min, max)` returns true, the subtree is ordered and every key lies strictly inside the present bounds |
| `TreeModel.IsBST` | src/BinarySearchTree.java:195-197 | when `isBST()` returns true, the tree satisfies the BST ordering |
| `TreeModel.IsAVL` | src/BinarySearchTree.java:231-240 | `isAVL(node)` holds iff every node's balance factor lies in [-1, 1] |
| `TreeModel.Build` | src/BinarySearchTree.java:247-255 | the tree built by adding a sequence of keys from empty holds exactly the keys of that sequence |
| `TreeLemmas.InsertSearchTree` | src/BinarySearchTree.java:93-100 | `add` preserves the BST ordering (left keys strictly smaller, right keys strictly larger) |
| `TreeLemmas.InsertHeightsValid` | src/BinarySearchTree.java:107-108 | `add` re-establishes the cached-height invariant at every node on the insertion path |
| `TreeLemmas.InsertPresentUnchanged` | src/BinarySearchTree.java:101-105 | on an ordered tree with valid heights, adding a key already present changes neither structure nor heights |
| `TreeLemmas.InsertAbsentGrows` | src/BinarySearchTree.java:86-116 | adding an absent key adds exactly one node and grows the height by at most one |
| `TreeLemmas.BuildInvariants` | src/BinarySearchTree.java:73-116 | any tree built only by `add` from empty is ordered, has valid cached heights, passes `isBST`, and holds exactly the added keys |
| `TreeLemmas.InsertMaxOnSpine` | src/BinarySearchTree.java:98-100 | adding a key larger than all stored keys to a right-leaning list extends it by one node at the end |
| `TreeLemmas.AscendingBuildIsSkewed` | src/BinarySearchTree.java:86-116 | ascending insertions give a list of height n (no rebalancing), and for n >= 3 the tree is not AVL |
| `TreeLemmas.SpineIsNotAVL` | src/BinarySearchTree.java:231-240 | a right-leaning list of at least three nodes with valid cached heights fails `isAVL` at its root |
| `TreeLemmas.InOrderLength` | src/BinarySearchTree.java:131-145 | the traversal has one entry per node |
| `TreeLemmas.InOrderSorted` | src/BinarySearchTree.java:131-145 | on an ordered tree the traversal is strictly increasing, i.e. the sorted contents |
| `TreeLemmas.SortedInOrderIsSearchTree` | src/BinarySearchTree.java:131-145 | a tree whose traversal is strictly increasing is ordered |
| `TreeLemmas.TwoLNodesIsFilteredPreOrder` | src/BinarySearchTree.java:180-189 | the 2L output equals the pre-order node sequence filtered to balance +2 |
| `TreeLemmas.TwoLNodesMembers` | src/BinarySearchTree.java:184-186 | a key is reported iff some node holding it has balance factor exactly +2 (a -2 node is never reported) |
| `TreeLemmas.AVLHasNoTwoLNodes` | src/BinarySearchTree.java:180-189 | a tree that passes `isAVL` has no 2L node |
| `TreeLemmas.IsBSTWithinMeaning` | src/BinarySearchTree.java:205-216 | `isBST(node, min, max)` holds iff the subtree is ordered and every key lies strictly inside the present bounds |
| `TreeLemmas.IsBSTIffSearchTree` | src/BinarySearchTree.java:195-197 | `isBST()` holds iff the tree satisfies the BST ordering |
| `TreeLemmas.IsBSTIffInOrderIncreasing` | src/BinarySearchTree.java:195-216 | `isBST()` holds iff the in-order traversal is strictly increasing |
| `TreeLemmas.IsAVLIgnoresKeys` | src/BinarySearchTree.java:231-240 | `isAVL` gives the same answer after every key is replaced, so it reads only shape and heights |
| `TreeLemmas.DemoBuild` | src/BinarySearchTree.java:247-255 | adding 50, 30, 70, 20, 40, 60, 80, 10, 5 to an empty tree yields the tree `DemoTree` |
| `TreeLemmas.DemoInOrder` | src/BinarySearchTree.java:258 | the demonstration tree's in-order output is 5 10 20 30 40 50 60 70 80 |
| `TreeLemmas.DemoHeights` | src/BinarySearchTree.java:261-263 | the demonstration tree's heights are 5 at the root, 4 at node 30, 1 at node 80 |
| `TreeLemmas.DemoSumDepths` | src/BinarySearchTree.java:266 | the demonstration tree's `sumDepths()` is 7 |
| `TreeLemmas.DemoChecks` | src/BinarySearchTree.java:268-273 | the demonstration tree is a BST, is not AVL, and its 2L nodes are 50, 30, 20 |

## Left out

- The `IllegalArgumentException` for a null key in `add(E)`: a Dafny `int` is never null, so that path cannot be modelled.
- `Comparable`/`compareTo` and the type parameter: keys are `int`, compared with `<` and `>`.
- Console output: `printInOrder` and `findAndPrint2LNodes` return the keys they would print, as sequences. The header line and the trailing newline of `printInOrder()` are not modelled.
- `main`: only its input sequence and the values the code computes on it are modelled (the `Demo…` lemmas).
- Java's 32-bit `int` for heights and `sumDepths` is unbounded here. Wrap-around would need more than 2^31 nodes or a depth sum of that size.
- Recursion depth: a skewed tree makes the Java recursion as deep as the tree, which can overflow the stack. The model has no stack.
- `UpdateHeight` also refreshes the ghost footprint and ghost value of the node. These exist only in the proof, and the source has no counterpart.
