# Tree and heap visualiser — a verified model of its data-structure core

The visualiser draws binary search trees, AVL trees, red-black trees and binomial
heaps. Its core is three pieces:

- the tree engine (`src/BinaryTree/utils/tree.ts`). Node records are linked by `left`,
  `right` and `parent` and updated in place. On them it implements BST insertion,
  AVL insertion with a recursive `rebalance`, red-black insertion with its
  recolouring/rotation loop, BST deletion by in-order successor, and an in-order
  layout;
- the binomial heap (`src/components/BinomialHeap/utils/binomialHeap.ts`). It has a
  root list of node records with children lists, and supports linking, merging by
  the sort-and-splice loop, insertion, find-min, extract-min and a pre-order
  layout;
- the early BST visualiser (`src/BinaryTree.tsx`). It has its own node records with
  drawing coordinates, plus `nodeExists`, `insertNode` (which places a node at
  insertion time), the guard of `handleInsert`, `wrapNumber` and
  `getBoundingBox`.

The model is written as follows:

- **The heap of node objects is an arena.** A node's identity is a `Ref`, and `null`
  is `Ptr.Null`. Each record field is one map from `Ref` to the field's value, held
  in a class whose methods change exactly the maps their `modifies` clause names.
  The classes are `TreeEngine.Nodes`, `BinomialHeap.Heaps` and
  `Visualiser.Drawing`.
- **Tree shapes are ghost values.** Each shape is a `Shapes.Tree` value. The
  predicate `Links.Shaped` ties a root pointer and the link maps to such a shape.
- **Methods are proved against pure functions.** The tree methods that change links
  are proved against pure functions on shapes: `SearchTree.Insert`,
  `SearchTree.Delete`, `Avl.Rebalance` and `Shapes.RotateLeft`/`RotateRight`. The
  red-black fix-up loop is proved against the loop state `TreeEngine.Nodes.FixInv` and the
  case functions `RedBlack.LeftFix` and `RedBlack.RightFix`. The binomial-heap methods
  work on the whole arena of records and are proved against the arena functions
  `BinomialHeap.Merge`, `BinomialHeap.ExtractMin` and `BinomialHeap.PlaceRoots`. The
  properties the source promises are then proved about those functions: sorted
  in-order values, the multiset of values, AVL balance and red-black validity.
- **Frames are stated.** Each insertion or deletion method also promises that the
  links (and, for red-black insertion, the colours) of nodes outside the tree are
  kept, in the form `Links.Keeps(old(m), m, Refs(t))`.

## Model

| member | source | states |
|---|---|---|
| Shapes.RotateLeft | src/BinaryTree/utils/tree.ts:91-103 | a left rotation lifts the right child to the top, with the old root as its left child, and keeps the in-order sequence and the node set |
| Shapes.RotateRight | src/BinaryTree/utils/tree.ts:108-120 | the mirror image: the left child is lifted, and the in-order sequence and node set are kept |
| Shapes.RotateDistinct | src/BinaryTree/utils/tree.ts:91-120 | rotations never make a node occur twice |
| Shapes.Leftmost | src/BinaryTree/utils/tree.ts:260-261 | the node the successor walk stops at is the first node in in-order |
| SearchTree.Values | src/BinaryTree/utils/tree.ts:17-26 | the in-order values of a tree have one entry per node |
| SearchTree.Insert | src/BinaryTree/utils/tree.ts:128-140 | BST insertion adds exactly the new node, keeps the root of a non-empty tree, and grows the height by at most one |
| SearchTree.InsertSortedMultiset | src/BinaryTree/utils/tree.ts:128-140 | inserting into a sorted sequence adds exactly one copy of the value |
| SearchTree.InsertSortedSorted | src/BinaryTree/utils/tree.ts:128-140 | inserting into a sorted sequence keeps it sorted |
| SearchTree.InsertValues | src/BinaryTree/utils/tree.ts:128-140 | after inserting into a search tree, its in-order values are its old values with `v` put in order |
| SearchTree.InsertSorts | src/BinaryTree/utils/tree.ts:128-140 | insertion keeps a search tree a search tree |
| SearchTree.InsertMultiset | src/BinaryTree/utils/tree.ts:128-140 | insertion adds exactly one copy of `v` to the values of any tree, sorted or not |
| SearchTree.InsertDistinct | src/BinaryTree/utils/tree.ts:128-140 | insertion of a fresh node keeps every node occurring once |
| SearchTree.Delete | src/BinaryTree/utils/tree.ts:250-266 | deletion only drops nodes, and changes no value outside the tree |
| SearchTree.DeleteAbsent | src/BinaryTree/utils/tree.ts:254-256 | deleting a value the tree does not hold changes nothing |
| SearchTree.DeletePresent | src/BinaryTree/utils/tree.ts:250-266 | deleting a held value from a search tree removes exactly one copy of it and leaves a search tree |
| SearchTree.LeftmostValue | src/BinaryTree/utils/tree.ts:260-262 | the successor's value is the least value of the right subtree |
| Avl.Fix | src/BinaryTree/utils/tree.ts:155-166 | the four rotation cases keep the in-order sequence, the node set and distinctness |
| Avl.Rebalance | src/BinaryTree/utils/tree.ts:151-167 | the whole-tree rebalance keeps the in-order sequence, the node set and distinctness, and is empty exactly when its input is |
| Avl.RebalanceBalanced | src/BinaryTree/utils/tree.ts:151-167 | rebalancing an AVL-balanced tree changes nothing |
| Avl.InsertBalanced | src/BinaryTree/utils/tree.ts:148-170 | inserting into an AVL-balanced tree and rebalancing gives a balanced tree whose height grew by at most one |
| Avl.FixGrownLeft | src/BinaryTree/utils/tree.ts:155-161 | after the left subtree grew by at most one, the rotations restore balance within one of the old height |
| Avl.FixGrownRight | src/BinaryTree/utils/tree.ts:155-165 | the mirror case, for a grown right subtree |
| Avl.InsertDescending | src/BinaryTree/utils/tree.ts:148-170 | inserting 3, 2, 1 rotates to the balanced tree rooted at the node holding 2 |
| RedBlack.IsRed | src/BinaryTree/utils/tree.ts:75 | only an existing node can be red |
| RedBlack.InsertRed | src/BinaryTree/utils/tree.ts:181-196 | inserting a red leaf keeps black heights and breaks red-red only at the new node |
| RedBlack.Recolor | src/BinaryTree/utils/tree.ts:204-208 | case 1 (red uncle) keeps the black height and moves the red violation up to the grandparent |
| RedBlack.FixLeftLeft | src/BinaryTree/utils/tree.ts:215-218 | the outer rotation of case 3 repairs the red violation and keeps black heights |
| RedBlack.FixLeftRight | src/BinaryTree/utils/tree.ts:210-218 | the inner rotation and then the outer one repair the red violation |
| RedBlack.FixRightRight | src/BinaryTree/utils/tree.ts:233-236 | the mirror of FixLeftLeft |
| RedBlack.FixRightLeft | src/BinaryTree/utils/tree.ts:228-236 | the mirror of FixLeftRight |
| RedBlack.BlackenRoot | src/BinaryTree/utils/tree.ts:240 | blackening the root after the loop gives a red-black tree |
| TreeEngine.LayoutIncreasing | src/BinaryTree/utils/tree.ts:61-72 | in the layout, x grows strictly along the in-order sequence |
| TreeEngine.LayoutRightSkewed | src/BinaryTree/utils/tree.ts:61-72 | a right-leaning chain of three nodes is drawn at x = 0, 70, 140 and y = 0, 90, 180 |
| TreeEngine.Nodes.CreateNode | src/BinaryTree/utils/tree.ts:40-51 | a fresh node has no links, the given value and colour, and position (0, 0) |
| TreeEngine.Nodes.HeightOf | src/BinaryTree/utils/tree.ts:80-81 | the height of the linked tree is the height of its shape |
| TreeEngine.Nodes.BalanceFactorOf | src/BinaryTree/utils/tree.ts:85-86 | the balance factor of the linked tree is that of its shape |
| TreeEngine.Nodes.RotateLeft | src/BinaryTree/utils/tree.ts:91-103 | the linked subtree becomes the rotated shape, the parent now points to the new top, and nothing else is relinked |
| TreeEngine.Nodes.RotateRight | src/BinaryTree/utils/tree.ts:108-120 | the mirror image of RotateLeft |
| TreeEngine.Nodes.InsertAt | src/BinaryTree/utils/tree.ts:128-140 | the recursive insertion links the shape `SearchTree.Insert` and sets the parent fields along it |
| TreeEngine.Nodes.BstInsert | src/BinaryTree/utils/tree.ts:128-140 | the result is a well-linked tree with one more copy of `v`, and a search tree stays sorted with `v` put in order; nodes outside the tree keep their links and parents |
| TreeEngine.Nodes.FixAt | src/BinaryTree/utils/tree.ts:155-166 | the rotation cases at one node link the shape `Avl.Fix` |
| TreeEngine.Nodes.Rebalance | src/BinaryTree/utils/tree.ts:151-167 | the recursive rebalance links the shape `Avl.Rebalance` with correct parent fields |
| TreeEngine.Nodes.AvlInsert | src/BinaryTree/utils/tree.ts:148-170 | the values gain one copy of `v`, a search tree stays sorted, and an AVL-balanced tree stays balanced; only the new node gets a position, and nodes outside the tree keep their links |
| TreeEngine.Nodes.RecolorUp | src/BinaryTree/utils/tree.ts:203-208 | case 1 turns the parent and uncle black and the grandparent red, and moves `z` two levels up |
| TreeEngine.Nodes.FixLeft | src/BinaryTree/utils/tree.ts:209-219 | cases 2-3 on the left end the loop with the same in-order sequence |
| TreeEngine.Nodes.FixRight | src/BinaryTree/utils/tree.ts:227-237 | cases 2-3 on the right end the loop with the same in-order sequence |
| TreeEngine.Nodes.FixStep | src/BinaryTree/utils/tree.ts:200-239 | one loop pass keeps the in-order sequence, and either ends the loop or moves `z` strictly up |
| TreeEngine.Nodes.FixLoop | src/BinaryTree/utils/tree.ts:200-239 | the loop ends with the parent of `z` not red and the same in-order sequence; nodes outside the tree keep their links and colours |
| TreeEngine.Nodes.FixUp | src/BinaryTree/utils/tree.ts:200-240 | the loop and the final recolouring end with a black root and the same in-order sequence, and with a red-black tree when the input was one; nodes outside the tree keep their links and colours |
| TreeEngine.Nodes.InsertRed | src/BinaryTree/utils/tree.ts:181-199 | the new red node `z` is inserted as `SearchTree.Insert` says and the fix-up loop can start at it; only `z` gets a value, a colour and a position |
| TreeEngine.Nodes.RbtInsert | src/BinaryTree/utils/tree.ts:178-242 | the values gain one copy of `v`, a search tree stays sorted, the root is black, and a red-black tree stays red-black; only the new node gets a position, and nodes outside the tree keep their links and colours |
| TreeEngine.Nodes.LeftmostOf | src/BinaryTree/utils/tree.ts:260-261 | the successor loop stops at the leftmost node |
| TreeEngine.Nodes.DeleteAt | src/BinaryTree/utils/tree.ts:250-266 | the recursion links the shape `SearchTree.Delete` and writes the values it computes |
| TreeEngine.Nodes.BstDelete | src/BinaryTree/utils/tree.ts:250-266 | deleting a held value removes one copy and keeps a search tree sorted; deleting an absent value changes no value and no link; nodes outside the tree keep their links |
| TreeEngine.Nodes.LayoutAt | src/BinaryTree/utils/tree.ts:63-70 | the walk places each node at (in-order index × 70, depth × 90) and advances the counter by the subtree size |
| TreeEngine.Nodes.LayoutTree | src/BinaryTree/utils/tree.ts:61-72 | every node of the tree is laid out from index 0 and depth 0, and nothing outside it moves |
| BinomialHeap.NewNode | src/components/BinomialHeap/utils/binomialHeap.ts:15-25 | a new node has the key, order 0, no children, no parent and position (0, 0) |
| BinomialHeap.EmptyHeap | src/components/BinomialHeap/utils/binomialHeap.ts:37-39 | the empty heap has no roots |
| BinomialHeap.Link | src/components/BinomialHeap/utils/binomialHeap.ts:44-56 | the smaller key (the first on a tie) wins; the loser goes in front of its children and gets it as parent; its order rises by one; no other record changes |
| BinomialHeap.SortByOrder | src/components/BinomialHeap/utils/binomialHeap.ts:62 | the sort is a permutation of the roots |
| BinomialHeap.SortSorted | src/components/BinomialHeap/utils/binomialHeap.ts:62 | the sorted roots have non-decreasing orders |
| BinomialHeap.SortDistinct | src/components/BinomialHeap/utils/binomialHeap.ts:62 | sorting keeps roots of distinct orders distinct |
| BinomialHeap.Merge | src/components/BinomialHeap/utils/binomialHeap.ts:61-76 | the merge keeps the set of records and keeps the children lists closed |
| BinomialHeap.ConsolidateNoLinks | src/components/BinomialHeap/utils/binomialHeap.ts:64-74 | without neighbours of equal order, the loop only pushes |
| BinomialHeap.MergeDistinctOrders | src/components/BinomialHeap/utils/binomialHeap.ts:61-76 | roots of pairwise distinct orders are merged without links, into a permutation sorted by order |
| BinomialHeap.InsertIntoEmpty | src/components/BinomialHeap/utils/binomialHeap.ts:81-85 | inserting into the empty heap gives the single new root, of order 0 |
| BinomialHeap.MergeLosesLinkedTree | src/components/BinomialHeap/utils/binomialHeap.ts:67-70 | as written, inserting 3 and then 5 leaves only the root 5, which hangs below 3; 3 is neither a root nor below one |
| BinomialHeap.ConsolidateFixed | src/components/BinomialHeap/utils/binomialHeap.ts:64-74 | the corrected loop (a linked pair is replaced by its winner, which is compared again) keeps the set of records |
| BinomialHeap.MergeFixed | src/components/BinomialHeap/utils/binomialHeap.ts:61-76 | the corrected merge keeps the set of records |
| BinomialHeap.StartConsolidating | src/components/BinomialHeap/utils/binomialHeap.ts:61-62 | the sorted roots of two heaps, each of distinct orders, hold no order three times |
| BinomialHeap.LinkAccounts | src/components/BinomialHeap/utils/binomialHeap.ts:67-70 | replacing a linked pair by its winner keeps the roots distinct and detached and loses no tree |
| BinomialHeap.FixedConsolidates | src/components/BinomialHeap/utils/binomialHeap.ts:64-74 | the corrected loop ends with distinct detached roots of strictly ascending orders from which every original node is reached |
| BinomialHeap.MergeFixedIsUnion | src/components/BinomialHeap/utils/binomialHeap.ts:61-76 | the corrected merge of two heaps, each with roots of distinct orders, returns distinct detached roots of strictly ascending orders, and every node of either heap is reached from them |
| BinomialHeap.MergeFixedKeepsLinkedTree | src/components/BinomialHeap/utils/binomialHeap.ts:67-70 | on the input of `MergeLosesLinkedTree`, the corrected merge leaves the single root 3, of order 1, with 5 as its child |
| BinomialHeap.MinFrom | src/components/BinomialHeap/utils/binomialHeap.ts:92-95 | the reduction returns the accumulator or an element of the list |
| BinomialHeap.MinFromLeast | src/components/BinomialHeap/utils/binomialHeap.ts:92-95 | the reduction finds a least key; on ties it keeps the earliest |
| BinomialHeap.FindMinSpec | src/components/BinomialHeap/utils/binomialHeap.ts:90-96 | find-min is `null` exactly for no roots, and otherwise the first root of least key |
| BinomialHeap.Without | src/components/BinomialHeap/utils/binomialHeap.ts:104 | the filter drops exactly the minimum root |
| BinomialHeap.Reverse | src/components/BinomialHeap/utils/binomialHeap.ts:110 | the children list is reversed element by element |
| BinomialHeap.ReverseTwice | src/components/BinomialHeap/utils/binomialHeap.ts:110 | reversing twice gives the list back |
| BinomialHeap.Cleared | src/components/BinomialHeap/utils/binomialHeap.ts:105-109 | clearing parents keeps the set of records |
| BinomialHeap.ClearedSpec | src/components/BinomialHeap/utils/binomialHeap.ts:105-109 | exactly the listed children lose their parent, and nothing else changes |
| BinomialHeap.PlaceTree | src/components/BinomialHeap/utils/binomialHeap.ts:125-130 | the walk keeps the set of records |
| BinomialHeap.PlaceTreeSpec | src/components/BinomialHeap/utils/binomialHeap.ts:125-130 | `dfs` places the node at pre-order position j at (offset + (count + j) × 70, depth × 90) |
| BinomialHeap.PlaceForestSpec | src/components/BinomialHeap/utils/binomialHeap.ts:129 | the walk over the children places their joint pre-order |
| BinomialHeap.PlaceRootsSpec | src/components/BinomialHeap/utils/binomialHeap.ts:119-133 | each root tree is placed from its own offset `idx × (70 × 2^order + 70)` with the count starting at 0 |
| BinomialHeap.FormsKeep | src/components/BinomialHeap/utils/binomialHeap.ts:119-133 | layout changes only positions, so the trees keep their shape |
| BinomialHeap.Heaps.CreateBHNode | src/components/BinomialHeap/utils/binomialHeap.ts:15-25 | a fresh record `NewNode(key)` is added |
| BinomialHeap.Heaps.LinkTrees | src/components/BinomialHeap/utils/binomialHeap.ts:44-56 | the records change as `Link` says |
| BinomialHeap.Heaps.BhMerge | src/components/BinomialHeap/utils/binomialHeap.ts:61-76 | the sort and the splicing loop give the records and root list of `Merge` |
| BinomialHeap.Heaps.BhInsert | src/components/BinomialHeap/utils/binomialHeap.ts:81-85 | insertion is the merge with a one-node heap; into an empty heap it gives the single new root |
| BinomialHeap.Heaps.ClearParents | src/components/BinomialHeap/utils/binomialHeap.ts:105-109 | the records become `Cleared` |
| BinomialHeap.Heaps.BhExtractMin | src/components/BinomialHeap/utils/binomialHeap.ts:101-114 | the result is `ExtractMin`; an empty heap is returned unchanged |
| BinomialHeap.Heaps.Dfs | src/components/BinomialHeap/utils/binomialHeap.ts:125-130 | the recursive walk gives `PlaceTree`, advances the counter by the tree size, and moves only positions |
| BinomialHeap.Heaps.DfsChildren | src/components/BinomialHeap/utils/binomialHeap.ts:129 | the walk over a children list gives `PlaceForest` |
| BinomialHeap.Heaps.LayoutBH | src/components/BinomialHeap/utils/binomialHeap.ts:119-133 | the records become `PlaceRoots` of the root trees |
| Visualiser.HoldsValues | src/BinaryTree.tsx:24-28 | some node holds `v` exactly when `v` is among the in-order values |
| Visualiser.Drawing.NodeExists | src/BinaryTree.tsx:24-28 | the search answers true exactly when the tree holds the value |
| Visualiser.Admissible | src/BinaryTree.tsx:74-75 | the guard admits exactly the parsed numbers from 0 to 99999 |
| Visualiser.InsertKeepsNoDuplicates | src/BinaryTree.tsx:76-77 | inserting an absent value keeps the values free of duplicates |
| Visualiser.DropYDepth | src/BinaryTree.tsx:37-64 | a new node is drawn 80 below its starting y for each level of its depth |
| Visualiser.LeftSubtreeCrossesRoot | src/BinaryTree.tsx:46-56 | after 50, 10, 20, 30, inserting 40 draws it right of the root although it lies in the left subtree |
| Visualiser.Drawing.CreateNode | src/BinaryTree.tsx:41-43 | a new leaf holds the value at the given position |
| Visualiser.Drawing.InsertNodeAt | src/BinaryTree.tsx:34-67 | the recursion links the shape `SearchTree.Insert` and draws the new node at the x and y reached by the shifts |
| Visualiser.Drawing.InsertNode | src/BinaryTree.tsx:34-67 | starting from (500, 50) at depth 1, the tree gains one copy of `v`, a sorted tree stays sorted with `v` put in order, and the root stays the root; nodes outside the tree keep their links |
| Visualiser.Drawing.HandleInsert | src/BinaryTree.tsx:73-83 | exactly the admissible inputs are accepted; a rejected or already-held value changes nothing, any other is inserted as one new node drawn where `insertNode` places it, with nodes outside the tree keeping their links; a duplicate-free tree stays duplicate-free |
| Visualiser.WrapNumber | src/BinaryTree.tsx:90-95 | up to three characters stay on one line; longer strings split into two, the first ⌈n/2⌉ long |
| Visualiser.WrapNumberJoin | src/BinaryTree.tsx:90-95 | the lines read together give the string back, and no line is empty |
| Visualiser.WrapNumberFits | src/BinaryTree.tsx:90-95 | up to six characters fit into lines of at most three |
| Visualiser.Include | src/BinaryTree.tsx:198-201 | one step of min/max widens the bounds to contain the point, and each side is the old side or the point |
| Visualiser.Absorb | src/BinaryTree.tsx:196-205 | walking further nodes from a box that holds the earlier ones gives a box holding all of them |
| Visualiser.Drawing.GetBoundingBox | src/BinaryTree.tsx:187-206 | the bounds contain every node and the initial bounds, and each side is attained by a node or by the initial bounds |
| Visualiser.Drawing.BoundingBox | src/BinaryTree.tsx:187-196 | an empty tree keeps the infinite bounds; otherwise the box is exactly the tightest box around the nodes |

## Left out

- Rendering is not part of this model. That covers the React state and effects, the
  SVG output, the `viewBox` padding, animation and the `alert` message; they have no
  state the core reads back.
- `parseFloat` and `num.toString()` are not modelled. `handleInsert` is modelled on
  the parsed number (`None` for `NaN`), and `wrapNumber` on the digit string.
- JavaScript numbers are modelled as unbounded reals. `NaN` and rounding are not
  modelled. The infinite initial bounds of `getBoundingBox` are represented by
  `None`.
- Node identifiers (`node-N`, `bh-N`) and their global counters are not modelled.
  They are replaced by the fresh arena reference each creation hands out.
- Visualiser.Drawing.GetBoundingBox: the shared bounds object, mutated by each
  recursive call, is threaded through the calls as a value instead. The order of
  the updates and the final result are the same.
- TreeEngine.Nodes.RbtInsert: requires a tree whose root is not red. The source
  reads the grandparent without a check, so a red root with a red child would
  dereference `null`.
- TreeEngine.Nodes.BstDelete: the parent fields are not updated by the source, so
  after a deletion the model does not claim correct parent links (it keeps
  `parent` out of the frame altogether).
- BinomialHeap.Merge: general correctness of the union is not claimed, because the
  loop as written can lose trees (see Findings). It is proved for root lists whose
  orders are distinct jointly (`MergeDistinctOrders`); the union of two heaps is
  proved for the corrected merge (`MergeFixedIsUnion`).
- BinomialHeap.MergeFixedIsUnion: states the shape of the root list and that no tree
  is lost; the heap order of keys (each parent's key at most its children's) is not
  part of the claim.
- BinomialHeap.Heaps.BhExtractMin: no heap-order or minimality claim on the
  result, for the same reason.
- Visualiser.Drawing.InsertNode: the y position is stated through `DropY`; its
  depth form is the separate lemma `Visualiser.DropYDepth`.
- `bhFindMin` is modelled as the pure function `BinomialHeap.FindMin`, proved by
  `BinomialHeap.FindMinSpec`; no method wraps it, since the source only reads.

## Findings

| source | as written | input that shows it | evidently intended | confidence | as-written member | corrected member |
|---|---|---|---|---|---|---|
| src/components/BinomialHeap/utils/binomialHeap.ts:67-70 | after linking `roots[i]` and `roots[i+1]`, the code does `i++` and then `splice(i, 0, curr)`. The winner is inserted in front of the loser, which stays in the list, and the loop's own `i++` then skips the winner. | `bhInsert(bhInsert(bhCreate(), 3), 5)`: the roots become `[5]`, the record 5 has parent 3, and 3 is reachable from no root | the union of binomial heaps: the pair is replaced by its winner, which is compared with the next roots again (when three roots of one order follow each other the last two are linked), so that no tree is lost and the orders end strictly ascending | not executed | BinomialHeap.MergeLosesLinkedTree | BinomialHeap.MergeFixedIsUnion |
