# Trees, an array stack and a bracket matcher, modelled in Dafny

This project models the data-structure core of a course repository:

- **`LinkedTree`**: a general rooted tree. Every node keeps an element, a parent link and an ordered list of children. The tree keeps its root and a running size. Each node records the tree that created it, and every operation first *validates* the node it is given: a null node and a node owned by another tree are rejected. The operations are `addRoot`, `addChild`, `replace`, `parent`, `isRoot`, `isInternal` and `isExternal`. Then:
  - `size`, `isEmpty` and `root`;
  - the preorder snapshot `nodes` and its helper `preorder`;
  - `depth`, which climbs parent links;
  - `height`, the recursive maximum over the children.

  `Trees/LinkedTree.java` is a second copy of the same tree with the same operations, and the same model serves it.
- **`BinaryTreeNode`**: a binary-tree node with a left slot, a right slot and a parent link. `addLeftChild` and `addRightChild` fill a slot only when it is empty. `addChild` follows a "left first, then right" policy. The recursive preorder and inorder traversals go with it, as does the seven-node tree the exercise builds.
- **`ArrayStack`**: a bounded stack stored in an array, with `top` the index of the top element and -1 when the stack is empty. `push` on a full stack fails, `pop` and `peek` on an empty stack fail, and `pop` clears the slot it empties.
- **`ParenMatcher.parenMatch`**: checks that the grouping symbols `()`, `[]` and `{}` of a string match, using an `ArrayStack` as large as the string. All other characters are ignored. The ten sample strings of the test driver are included.

Modules:

- `Wrappers` (`wrappers.dfy`): `Option`, `Result` and `Outcome`. A Java exception is a `Failure`/`Fail` value that carries the reason.
- `TreeArena` (`tree_arena.dfy`): the shape of a general tree, stored in a sequence of node links, as follows:
  - node `i` is slot `i`, and slot 0 is the root;
  - a node is created after its parent, so its parent's slot is smaller;
  - the module defines the representation invariant `WellFormed`, ancestry, the preorder, depth and height;
  - it proves lemmas about all of them, including that adding a leaf preserves them.
- `LinkedTrees` (`linked_tree.dfy`): the class `LinkedTree`. Its fields are `root`, `size`, the arena `links` and `elements`, and its methods update them in place. A node reference is a `Handle`, which holds the owning tree and a slot. A null reference is `None`.
- `BinaryTrees` (`binary_tree.dfy`): the class `BinaryTreeNode` with its four fields. The traversals follow the heap links, and they are tied to the value type `Tree` through `Shape`.
- `ArrayStacks` (`array_stack.dfy`): the class `ArrayStack` over `array<Option<E>>`, where `None` is Java's `null`. The ghost `Contents` lists the elements from the bottom up.
- `ParenMatching` (`paren_matcher.dfy`):
  - `ParenMatch` is the loop over the characters, with an `ArrayStack`.
  - `Step` and `Run` are the same scan as functions of the stack.
  - `Parse` is a grammar of balanced expressions. `Balanced(s)` holds when `s` has a valid parse.
  - The theorem is that the matcher accepts exactly the balanced strings.

## Model

| member | source | states |
|---|---|---|
| TreeArena.AncestorIsEarlier | LinkedTree.java:221-229 | a node is created under an existing node, so an ancestor is stored no later than its descendant |
| TreeArena.RootIsAncestorOfAll | LinkedTree.java:194-209 | the single root added by `addRoot` is an ancestor of every node of the tree |
| TreeArena.SiblingSubtreesDisjoint | LinkedTree.java:92-102 | each node is added to exactly one child list, so the subtrees of two different children share no node |
| TreeArena.PreorderCount | LinkedTree.java:320-327 | the preorder from node `i` lists every descendant of `i` exactly once and no other node |
| TreeArena.PreorderMember | LinkedTree.java:320-327 | a node occurs in the preorder from `i` if and only if `i` is its ancestor |
| TreeArena.PreorderAncestorsFirst | LinkedTree.java:291-300 | preorder visits a node before all of its descendants: no entry is an ancestor of an earlier entry |
| TreeArena.PreorderFromRootComplete | LinkedTree.java:306-312 | from the root, the preorder has one entry per node, lists each of the `n` nodes exactly once, starts with the root and lists ancestors first |
| TreeArena.DepthOfChild | Trees/LinkedTree.java:202-213 | the depth of a child, the number of parent links up to the root, is its parent's depth plus one |
| TreeArena.MaxHeightIsUpperBound | LinkedTree.java:367-370 | the running maximum over the first `k` children is at least the height of each of them |
| TreeArena.TallestChild | LinkedTree.java:367-370 | the running maximum over `k > 0` children is the height of one of them |
| TreeArena.HeightOfInternal | Trees/LinkedTree.java:221-235 | a node with children is taller than each child and exactly one taller than its tallest child |
| TreeArena.HeightOfParent | Trees/LinkedTree.java:221-235 | every non-root node is shorter than its parent |
| TreeArena.HeightIsLongestPath | LinkedTree.java:350-356 | the height of `i` is the length of the longest downward path: no descendant is more than `Height(i)` levels below `i`, and one is exactly that far below |
| TreeArena.Attach | LinkedTree.java:99-102 | adoption sets the child's parent link and appends the child to the parent's children, changing no other node |
| TreeArena.GrowPreservesTree | LinkedTree.java:221-229 | adding a leaf under an existing node keeps the tree well formed and keeps every old node's ancestors and depth. The new leaf's ancestors are itself and the ancestors of its parent, and its depth is the parent's depth plus one |
| LinkedTrees.LinkedTree.constructor | LinkedTree.java:134-137 | a new tree is valid, has no root and has size 0 |
| LinkedTrees.LinkedTree.Size | LinkedTree.java:143-146 | the size counter equals the number of nodes reachable from the root |
| LinkedTrees.LinkedTree.IsEmpty | LinkedTree.java:148-151 | empty exactly when there is no root, and exactly when no node is reachable |
| LinkedTrees.LinkedTree.Root | LinkedTree.java:157-160 | absent exactly when the size is 0; otherwise a node of this tree that has no parent and comes first in preorder |
| LinkedTrees.LinkedTree.Validate | LinkedTree.java:180-188 | a null node fails with `InvalidNode` and a node of another tree with `ForeignNode`. It succeeds exactly for this tree's own nodes, with their slot |
| LinkedTrees.LinkedTree.Parent | LinkedTree.java:162-166 | passes on the validation error; otherwise gives no parent exactly for the root, and for any other node a parent of this tree that is stored earlier and lists the node among its children |
| LinkedTrees.LinkedTree.IsExternal | LinkedTree.java:256-264 | passes on the validation error; otherwise true exactly when the node has no children, and then its height is 0 |
| LinkedTrees.LinkedTree.IsInternal | LinkedTree.java:251-254 | is the negation of `IsExternal`, errors included: true exactly when the node has a child |
| LinkedTrees.LinkedTree.IsRoot | LinkedTree.java:266-270 | passes on the validation error; otherwise true exactly when the node is the stored root, and exactly when it has no parent |
| LinkedTrees.LinkedTree.AddRoot | LinkedTree.java:194-209 | on a non-empty tree, fails with `TreeNotEmpty` and changes nothing; on an empty tree, makes a single parentless node holding `e` and sets the size to 1 |
| LinkedTrees.LinkedTree.AddChild | LinkedTree.java:211-229 | passes on the validation error and changes nothing. Otherwise it appends a new leaf holding `e` as the last child of `p`, with parent `p`. The size grows by one, every other node is unchanged and the invariant is kept |
| LinkedTrees.LinkedTree.Replace | LinkedTree.java:231-245 | passes on the validation error; otherwise returns the old element and stores `e` at that node only, leaving the links alone |
| LinkedTrees.LinkedTree.Depth | LinkedTree.java:333-348 | passes on the validation error; otherwise the loop up the parent links counts the node's depth, which is 0 for the root |
| LinkedTrees.LinkedTree.Height | LinkedTree.java:350-360 | passes on the validation error; otherwise the height of the node's subtree |
| LinkedTrees.LinkedTree.HeightHelper | LinkedTree.java:362-372 | 0 for a leaf, otherwise one more than the loop's maximum over the children; equals the subtree's height |
| LinkedTrees.LinkedTree.Nodes | LinkedTree.java:291-312 | the snapshot has `size` entries and starts with the root. It holds the preorder of the reachable nodes, every node exactly once and each before its descendants. It is a function of the tree's state, so two calls with no change in between give equal snapshots |
| LinkedTrees.LinkedTree.PreorderInto | LinkedTree.java:314-327 | appends to `out` the preorder of the subtree at `i`: the node, then each child's subtree from left to right |
| BinaryTrees.BinaryTreeNode.constructor | Trees/BinaryTreeExercise.java:5-15 | a detached node holding `d`, with no children and no parent |
| BinaryTrees.BinaryTreeNode.SetParent | Trees/BinaryTreeExercise.java:38-40 | sets only the parent link |
| BinaryTrees.BinaryTreeNode.SetData | Trees/BinaryTreeExercise.java:42-44 | sets only the data |
| BinaryTrees.BinaryTreeNode.AddPositionalChild | Trees/BinaryTreeExercise.java:46-57 | a fresh childless node holding `d` whose parent is this node, placed in the requested slot; the other slot is untouched |
| BinaryTrees.BinaryTreeNode.AddLeftChild | Trees/BinaryTreeExercise.java:59-68 | fills an empty left slot with a fresh child; if the slot is taken, returns null and changes nothing |
| BinaryTrees.BinaryTreeNode.AddRightChild | Trees/BinaryTreeExercise.java:70-79 | fills an empty right slot with a fresh child; if the slot is taken, returns null and changes nothing |
| BinaryTrees.BinaryTreeNode.AddChild | Trees/BinaryTreeExercise.java:81-88 | fills the left slot if it is empty, otherwise the right slot if that is empty, otherwise returns null with both slots unchanged: a node never gets a third child |
| BinaryTrees.PreOrderTraversal | Trees/BinaryTreeExercise.java:112-120 | following the links from a node gives the preorder of the tree hanging from it |
| BinaryTrees.InOrderTraversal | Trees/BinaryTreeExercise.java:121-129 | following the links from a node gives the inorder of the tree hanging from it |
| BinaryTrees.SharedLeafVisitedTwice | Trees/BinaryTreeExercise.java:114-129 | a leaf hanging from both slots of a node is visited once per slot by both traversals, as the recursion over the links does |
| BinaryTrees.TraversalsVisitEachNodeOnce | Trees/BinaryTreeExercise.java:114-129 | each traversal has one entry per node and lists exactly the multiset of the tree's values |
| BinaryTrees.TraversalsDetermineTree | Trees/BinaryTreeExercise.java:114-129 | when the values are distinct, two trees with the same preorder and the same inorder are the same tree |
| BinaryTrees.ExercisePreOrder | Trees/BinaryTreeExercise.java:108 | the exercise tree's preorder is 1 2 4 5 3 6 7 |
| BinaryTrees.ExerciseInOrder | Trees/BinaryTreeExercise.java:109 | the exercise tree's inorder is 4 2 5 1 6 3 7 |
| BinaryTrees.ExerciseTree | Trees/BinaryTreeExercise.java:94-110 | building the exercise tree with `addChild` links seven nodes, without cycles, into a structure whose traversals are those two sequences |
| ArrayStacks.ArrayStack.constructor | W1/src/ds/stack/ArrayStack.java:14-16 | an empty stack with a fresh array of `capacity` cleared slots |
| ArrayStacks.ArrayStack.Size | W1/src/ds/stack/ArrayStack.java:19-21 | `top + 1` is the number of elements, between 0 and the capacity |
| ArrayStacks.ArrayStack.IsEmpty | W1/src/ds/stack/ArrayStack.java:24-26 | true exactly when the stack holds no element |
| ArrayStacks.ArrayStack.Push | W1/src/ds/stack/ArrayStack.java:29-36 | on a full stack, fails with `Full` and changes nothing; otherwise puts `o` on top, keeping the invariant that slots above `top` are cleared |
| ArrayStacks.ArrayStack.Pop | W1/src/ds/stack/ArrayStack.java:39-48 | on an empty stack, fails with `Empty`; otherwise returns the top element and removes it, clearing its slot |
| ArrayStacks.ArrayStack.Peek | W1/src/ds/stack/ArrayStack.java:51-55 | on an empty stack, fails with `Empty`; otherwise returns the top element and changes nothing |
| ArrayStacks.PushThenPop | W1/src/ds/stack/ArrayStack.java:29-48 | a push onto a stack that is not full, followed by a pop, returns the pushed element and restores the contents |
| ParenMatching.IsOpening | W1/src/ds/stack/ParenMatcher.java:34-36 | `(`, `[` and `{` are the opening symbols, and no opening symbol is a closing one |
| ParenMatching.IsClosing | W1/src/ds/stack/ParenMatcher.java:38-40 | `)`, `]` and `}` are the closing symbols, and none of them is an opening symbol |
| ParenMatching.Matches | W1/src/ds/stack/ParenMatcher.java:42-46 | pairs `(` with `)`, `[` with `]` and `{` with `}`: a partner pair is always an opening symbol and a closing symbol |
| ParenMatching.RunAppend | W1/src/ds/stack/ParenMatcher.java:15-30 | scanning `a + b` is scanning `a`, then scanning `b` from the stack `a` leaves |
| ParenMatching.InvalidStaysInvalid | W1/src/ds/stack/ParenMatcher.java:15-30 | once the scan is invalid it stays invalid, so stopping the loop early does not change the answer |
| ParenMatching.ParsedKeepsStack | W1/src/ds/stack/ParenMatcher.java:15-30 | scanning a balanced expression leaves any stack as it found it |
| ParenMatching.ParseScan | W1/src/ds/stack/ParenMatcher.java:15-31 | a scan from stack `st` that ends valid with an empty stack has read balanced text, then a partner of the top of `st`, then balanced text, and so on down the stack |
| ParenMatching.MatchedIffBalanced | W1/src/ds/stack/ParenMatcher.java:6-7 | the scan accepts a string if and only if all of its grouping symbols match |
| ParenMatching.ParenMatch | W1/src/ds/stack/ParenMatcher.java:8-32 | the stack-based loop returns true if and only if the expression is balanced. It stops at the first closing symbol with no partner on top, and its stack never overflows |
| ParenMatching.SampleOperandsAndGroups | W1/ParenMatcherStringTest.java:8 | `(a+b)*[c]` is accepted |
| ParenMatching.SampleNestedPair | W1/ParenMatcherStringTest.java:9 | `([])` is accepted |
| ParenMatching.SampleWrongNesting | W1/ParenMatcherStringTest.java:10 | `([)]` is rejected: the scan turns invalid |
| ParenMatching.SampleClosingTooEarly | W1/ParenMatcherStringTest.java:11 | `)a+b` is rejected: the scan turns invalid |
| ParenMatching.SampleLeftoverOpening | W1/ParenMatcherStringTest.java:12 | `(()` is rejected: the scan ends with `(` still on the stack |
| ParenMatching.SampleSiblingsInside | W1/ParenMatcherStringTest.java:13 | `{[()()]}` is accepted |
| ParenMatching.SampleEmpty | W1/ParenMatcherStringTest.java:14 | the empty string is accepted |
| ParenMatching.SampleNoSymbols | W1/ParenMatcherStringTest.java:15 | `abc + 123` is accepted |
| ParenMatching.SampleThreeKinds | W1/ParenMatcherStringTest.java:16 | `([{}])` is accepted |
| ParenMatching.SampleMismatchedClosing | W1/ParenMatcherStringTest.java:17 | `((2+3)*5])` is rejected: the scan turns invalid |

## Left out

- Iteration (`iterator()`, the for-each support) and the unmodifiable child-list view `getChildren`: they only hand out what `Nodes` and the stored child lists already give. `toString`, the printing in `main` and in the traversals, and the test driver's printing are not modelled. The traversals return the sequence they would print.
- The draft's `getChildren(p)` at Trees/LinkedTree.java:168-173 is not modelled because its body does not compile. The draft also has other slips, each modelled as the corresponding code of `LinkedTree.java`:
  - `replace` calls the undefined `elementInternal`/`setElementInternal`;
  - `isExternal` (Trees/LinkedTree.java:157) and `preorder` (Trees/LinkedTree.java:195) call the undefined `childrenInternal()`;
  - `Node` is declared as a top-level `static class` (Trees/LinkedTree.java:16).
- Nodes are not separate heap objects. A tree's nodes live in its own arena, and a handle names the owning tree and a slot. Node identity is therefore (tree, slot), and the owner check compares trees by reference, as `validate` does.
- LinkedTrees.LinkedTree.Validate: requires (`Issued`) that a handle naming this tree has a slot of this tree. In Java, every node is created by its tree, because the node constructor is private. A handle forged with an out-of-range slot cannot arise, so it is not modelled.
- LinkedTrees.LinkedTree.AddChild: `size`, depth and height are unbounded naturals. Java's `int` would wrap only after 2^31 - 1 nodes, and that is not modelled.
- ArrayStacks.ArrayStack.constructor: takes a natural capacity. A negative capacity, which Java rejects with `NegativeArraySizeException`, is not modelled. The unchecked generic-array cast and the `Stack` interface (not among the modelled files) are also left out.
- ArrayStacks.ArrayStack.Peek: the source file ends inside `peek`, after the emptiness check, so the model returns the top element as the comment promises.
- BinaryTrees.PreOrderTraversal and BinaryTrees.InOrderTraversal: they require that the links from the node stay within a given set of nodes and reach no node twice along one path (`Closed`). Only cyclic structures are excluded; on those the Java recursion would not terminate. A node that hangs from two slots is allowed, and it is visited once per path, as in Java (`SharedLeafVisitedTwice`).
- Several source files have syntax slips that stop them from compiling, and the model follows the evident intent. These are the missing semicolon at W1/src/ds/stack/ParenMatcher.java:9, the type `inaryTreeNode` at Trees/BinaryTreeExercise.java:8, and the missing semicolons at Trees/BinaryTreeExercise.java:64 and :75.
- The Java matcher pops the top symbol before comparing it with a mismatched closing symbol. The model's pure `Step` leaves the stack alone in that case, but the scan is invalid from then on, so the answer is the same. `ParenMatch` itself pops as Java does.
