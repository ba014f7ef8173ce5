# AVL tree map and bounded stack of `container`

This project models the two in-memory containers of the `container`
namespace and proves properties of the model.

- `avl_tree<Key, T>` (include/container/avl_tree.hpp) is an ordered map kept
  as a height-balanced binary search tree. Every node caches its height `h`.
  `find` descends to the node whose key is equivalent to the one asked for.
  `insert` overwrites the value of an equivalent key in place, or links a new
  leaf. `erase` removes a node; a matched node without a right child is
  replaced by its left child, and one with a right child by the leftmost node
  of its right subtree. On the way back up, every ancestor goes
  through `balance`, which performs a single or a double rotation when a
  node's bias reaches +2 or -2. `inorder` visits the entries in key order.
  Nodes come from a fixed pool of `cap_` slots handed out by a bump index
  `size_`.
- `stack<T>` (include/container/stack.hpp) is a fixed-capacity stack over a
  buffer of `cap_` slots with a top index `top_`.

Layout:

- `wrappers.dfy`: `Option`, the model of `std::optional`.
- `avl_nodes.dfy` (module `AvlNodes`): the node datatype `Tree<V>`, with
  `Nil` for a null child. It also holds the comparator and key equivalence,
  the cached-height helpers `Height`, `Reheight` and `Bias`, and the views
  `Keys`, `Entries`, `Inorder` and `Size`. The invariants are `HeightsOk`
  (correct caches), `Balanced` (AVL balance) and `Bst` (search order), with
  lemmas about them.
- `avl_balance.dfy` (module `AvlBalance`): `Rotate` written once over child
  indices, `LeftRotate`, `RightRotate` and `Balance`.
- `avl_ops.dfy` (module `AvlOps`): `Find`, `Insert`, `Leftmost`,
  `EraseLeftmost` (the source's `erase__`) and `Erase` on subtrees, each
  returning the new subtree root and, for `Insert` and `Erase`, the previous
  value.
- `avl_container.dfy` (module `AvlContainer`): the class `AvlTree<V>` with the
  fields `root`, `size` and `cap`. It also holds a client scenario.
- `stack.dfy` (module `StackContainer`): the class `Stack<T>` over an
  `array<T>` with `top` and `cap`, and `PopAsWritten`, the slot-level model
  of `pop` as its code reads (see "## Findings").

The tree code rewires node fields in place and returns the new subtree root.
Here it is written as functions on tree values that return the new root, so
each step of the source is one function application. The container's
`size_`/`cap_` bookkeeping, and the whole stack, stay imperative: classes
whose methods update fields and array slots.

Keys are `int`, ordered by `<` (the default `std::less`). Key equivalence is
derived from the comparator exactly as the source does: `Eq(a, b)` holds when
neither `Less(a, b)` nor `Less(b, a)`.

The node pool has no free list. `create_node` takes slot `pool_ + size_`
after `BOOST_ASSERT_MSG(size_ < cap_)`, and `destroy_node` only decrements
`size_`. So in the model the pool is the counter `size`, and inserting a new
key requires `size < cap`.

`inorder` calls a visitor on each (key, value). Here `Inorder` returns the
sequence of pairs the visitor would receive.

Both constructors take the capacity with the source's default of 32.

## Model

| member | source | states |
|---|---|---|
| AvlNodes.LessIsStrictOrder | include/container/avl_tree.hpp:51 | the comparator `std::less` (cmp_) is irreflexive, asymmetric and transitive, and any two keys are ordered one way or the other or are equivalent |
| AvlNodes.Neq | include/container/avl_tree.hpp:316-318 | two keys are non-equivalent (one orders before the other) exactly when they differ |
| AvlNodes.Eq | include/container/avl_tree.hpp:320 | two keys are equivalent (neither orders before the other) exactly when they are equal |
| AvlNodes.HeightZeroIffNil | include/container/avl_tree.hpp:264 | with correct caches, height is 0 exactly for a null subtree |
| AvlNodes.ReheightOfTallerChild | include/container/avl_tree.hpp:266-268 | the recomputed height exceeds both children's heights and is one more than one of them |
| AvlNodes.BiasPicksTallerChild | include/container/avl_tree.hpp:270-272 | the bias is non-negative exactly when the left child determines the recomputed height, non-positive exactly when the right child does |
| AvlNodes.ChildWithin | include/container/avl_tree.hpp:234-235 | the child c[s] is a smaller subtree whose keys and entries are among the node's |
| AvlNodes.WithChildThenChild | include/container/avl_tree.hpp:235-236 | after replacing c[s], reading c[s] gives the new child; the other child, key, value and cached height are unchanged |
| AvlNodes.NewNode | include/container/avl_tree.hpp:41-42 | a constructed node has no children, the given key and value, and a cached height that is already correct |
| AvlNodes.HeightIsDepth | include/container/avl_tree.hpp:263-268 | when every node caches max(child heights) + 1, the cached height of a subtree is its true height, counted independently of the caches |
| AvlNodes.Inorder | include/container/avl_tree.hpp:118-126 | the traversal visits exactly as many pairs as the subtree has nodes |
| AvlNodes.InorderVisitsEntries | include/container/avl_tree.hpp:118-126 | a pair is visited by the traversal exactly when it is an entry of the subtree |
| AvlNodes.BstAscending | include/container/avl_tree.hpp:102-108 | the in-order traversal of a search tree yields strictly ascending keys |
| AvlNodes.AscendingBst | include/container/avl_tree.hpp:118-126 | conversely, a subtree whose traversal is strictly ascending is a search tree |
| AvlNodes.BstIffAscending | include/container/avl_tree.hpp:118-126 | search-tree order holds if and only if the traversal is strictly ascending |
| AvlNodes.BstKeyUnique | include/container/avl_tree.hpp:155-159 | in a search tree a key carries a single value (no duplicate keys) |
| AvlNodes.AvlMinSize | include/container/avl_tree.hpp:8-10 | a balanced subtree of height h has at least Fib(h + 2) - 1 nodes, hence at least Fib(h) |
| AvlBalance.Rotate | include/container/avl_tree.hpp:224-240 | the j-child y becomes the root, x becomes y's i-child, y's former i-child becomes x's j-child, both recompute h as max(child heights) + 1; in-order sequence, entries, keys and size are kept |
| AvlBalance.LeftRotate | include/container/avl_tree.hpp:241 | the right child becomes the root with the old root as its left child, which takes over the child's left subtree; heights recomputed, in-order sequence kept, correct caches below give correct caches |
| AvlBalance.RightRotate | include/container/avl_tree.hpp:242 | mirror image of LeftRotate: the left child becomes the root |
| AvlBalance.Balance | include/container/avl_tree.hpp:195-223 | the result has correct cached heights and the same entries, keys and size; a node with bias within one is returned with only its height recomputed |
| AvlBalance.BalanceKeepsInorder | include/container/avl_tree.hpp:203-223 | rebalancing, with its single or double rotation, keeps the in-order sequence of the subtree |
| AvlBalance.BalanceKeepsBst | include/container/avl_tree.hpp:203-223 | rebalancing a search tree gives a search tree |
| AvlBalance.BalanceRestoresAvl | include/container/avl_tree.hpp:195-202 | if both children are balanced and their heights differ by at most two, the result is balanced, its height is the recomputed height or one less, and exactly the recomputed height when no rotation was due |
| AvlBalance.LeftHeavyRepaired | include/container/avl_tree.hpp:205-212 | a node leaning left by two (left-left or left-right case) becomes balanced, its height the recomputed one or one less |
| AvlBalance.LeftRightRepaired | include/container/avl_tree.hpp:207-210 | in the left-right case the left rotation of x.l followed by the right rotation of x gives a balanced subtree, its height the recomputed one or one less |
| AvlBalance.RightHeavyRepaired | include/container/avl_tree.hpp:213-221 | a node leaning right by two (right-right or right-left case) becomes balanced, its height the recomputed one or one less |
| AvlBalance.RightLeftRepaired | include/container/avl_tree.hpp:215-219 | in the right-left case the right rotation of x.r followed by the left rotation of x gives a balanced subtree, its height the recomputed one or one less |
| AvlBalance.BalanceIdle | include/container/avl_tree.hpp:222 | a node that is already balanced with a correct cache is returned unchanged |
| AvlOps.Find | include/container/avl_tree.hpp:134-140 | a value found for k is the value of an entry with key k |
| AvlOps.FindCorrect | include/container/avl_tree.hpp:72-75 | in a search tree find returns Some(v) exactly when (k, v) is an entry, and None exactly when k is not a key |
| AvlOps.Insert | include/container/avl_tree.hpp:147-161 | the result is a non-empty subtree with correct cached heights whose size grew by one exactly when no previous value was returned |
| AvlOps.InsertKeys | include/container/avl_tree.hpp:147-161 | after insertion the keys are the old keys with k added |
| AvlOps.InsertDescends | include/container/avl_tree.hpp:151-154 | below a node whose key differs from k, insertion returns the result of the side subtree it descends into, and the new node's entries are that subtree's new entries, the node's own and the other side's |
| AvlOps.InsertAbsent | include/container/avl_tree.hpp:147-154 | inserting an absent key returns nothing and adds exactly the entry (k, v) |
| AvlOps.InsertPresent | include/container/avl_tree.hpp:151-159 | inserting a key present in a search tree returns its old value, an entry of the tree, and replaces that entry by (k, v) |
| AvlOps.InsertPresentBelow | include/container/avl_tree.hpp:151-154 | when the side subtree holding k had its entry of k replaced, so has the whole subtree, because k occurs on no other side |
| AvlOps.InsertKeepsBst | include/container/avl_tree.hpp:151-160 | insertion into a search tree gives a search tree |
| AvlOps.InsertEntries | include/container/avl_tree.hpp:155-159 | the old value is returned exactly when k was present; (k, v) then replaces the old entry, otherwise it is added, and all other entries stay |
| AvlOps.InsertBalanced | include/container/avl_tree.hpp:160 | insertion into a balanced tree gives a balanced tree whose height grew by zero or one |
| AvlOps.InsertExistingKeepsShape | include/container/avl_tree.hpp:155-159 | overwriting a present key leaves shape, keys and cached heights of an AVL tree unchanged |
| AvlOps.Leftmost | include/container/avl_tree.hpp:248 | the leftmost node has no left child, is an entry of the subtree, and in a search tree holds the smallest key |
| AvlOps.EraseLeftmost | include/container/avl_tree.hpp:254-260 | unlinking the leftmost node leaves correct cached heights and one node fewer |
| AvlOps.EraseLeftmostKeys | include/container/avl_tree.hpp:254-260 | in a search tree exactly the leftmost node's key disappears and search order is kept |
| AvlOps.EraseLeftmostEntries | include/container/avl_tree.hpp:254-260 | in a search tree exactly the leftmost node's entry disappears |
| AvlOps.EraseLeftmostBalanced | include/container/avl_tree.hpp:258-259 | unlinking the leftmost node of a balanced tree keeps it balanced and lowers it by zero or one |
| AvlOps.Erase | include/container/avl_tree.hpp:168-193 | the result has correct cached heights and one node fewer exactly when a value was returned |
| AvlOps.PromoteSuccessor | include/container/avl_tree.hpp:187-191 | the promoted successor node has children with correct caches and carries every node of the matched subtree but one |
| AvlOps.PromoteSuccessorKeys | include/container/avl_tree.hpp:187-192 | promoting the in-order successor keeps search order and removes only the matched key |
| AvlOps.PromoteSuccessorEntries | include/container/avl_tree.hpp:180-192 | promoting the in-order successor removes exactly the matched entry |
| AvlOps.EraseKeepsBst | include/container/avl_tree.hpp:168-179 | removal from a search tree gives a search tree whose keys are the old keys without k |
| AvlOps.EraseEntries | include/container/avl_tree.hpp:169-186 | the removed value is returned exactly when k was present and then only its entry disappears; an absent key leaves the entries unchanged |
| AvlOps.EraseDescends | include/container/avl_tree.hpp:172-178 | below a node whose key differs from k, removal returns the result of the side subtree it descends into, and the new node's entries are that subtree's new entries, the node's own and the other side's |
| AvlOps.EraseAbsent | include/container/avl_tree.hpp:168-178 | removing an absent key returns nothing and leaves the entries as they were |
| AvlOps.ErasePresent | include/container/avl_tree.hpp:172-192 | removing a key present in a search tree returns its value, an entry of the tree, and takes exactly that entry out |
| AvlOps.ErasePresentBelow | include/container/avl_tree.hpp:172-178 | when the side subtree holding k lost its entry of k, so has the whole subtree, because k occurs on no other side |
| AvlOps.EraseBalanced | include/container/avl_tree.hpp:172-192 | removal from a balanced tree gives a balanced tree whose height dropped by zero or one |
| AvlOps.PromoteSuccessorBalanced | include/container/avl_tree.hpp:187-192 | the rebalanced promoted successor of a balanced node is balanced and at most one lower than that node |
| AvlOps.InsertThenFind | include/container/avl_tree.hpp:84-88 | after inserting (k, v) into an AVL tree, find(k) returns v |
| AvlOps.InsertKeepsOthers | include/container/avl_tree.hpp:147-161 | inserting k does not change find of any other key |
| AvlOps.EraseThenFind | include/container/avl_tree.hpp:96-100 | after erasing k, find(k) returns nothing |
| AvlOps.EraseKeepsOthers | include/container/avl_tree.hpp:168-193 | erasing k does not change find of any other key |
| AvlContainer.AvlTree.constructor | include/container/avl_tree.hpp:63 | a new tree is empty, with no live nodes and a pool of n slots |
| AvlContainer.AvlTree.Find | include/container/avl_tree.hpp:72-75 | returns nothing exactly when k is not a key, and Some(v) exactly when (k, v) is an entry |
| AvlContainer.AvlTree.Insert | include/container/avl_tree.hpp:84-88 | keeps the AVL invariant and size == number of nodes <= cap; an existing key returns its old value, gets the new one and leaves shape and size unchanged; a new key returns nothing, adds its entry and increments size, and requires size < cap |
| AvlContainer.AvlTree.Erase | include/container/avl_tree.hpp:96-100 | keeps the invariant; a present key returns its value, loses its entry and decrements size; an absent key returns nothing and changes neither entries nor size |
| AvlContainer.AvlTree.Inorder | include/container/avl_tree.hpp:108 | the visited pairs are exactly the entries, size of them, in strictly ascending key order |
| AvlContainer.AvlTree.CreateNode | include/container/avl_tree.hpp:276-282 | requires size < cap, hands out the bump slot numbered size and increments size |
| AvlContainer.AvlTree.DestroyNode | include/container/avl_tree.hpp:285-288 | only decrements size |
| AvlContainerScenario.FillThenErase | include/container/avl_tree.hpp:84-100 | four distinct keys fill a pool of four slots; erasing key 3 then returns the value inserted under it and leaves three live nodes |
| StackContainer.Stack.constructor | include/container/stack.hpp:30 | a new stack is empty with a buffer of n slots |
| StackContainer.Stack.Empty | include/container/stack.hpp:34 | holds exactly when no element is on the stack |
| StackContainer.Stack.Full | include/container/stack.hpp:37 | holds exactly when the stack holds cap elements |
| StackContainer.Stack.Size | include/container/stack.hpp:57 | the number of elements on the stack, at most cap |
| StackContainer.Stack.Push | include/container/stack.hpp:40-44 | requires a stack that is not full; appends x on top and leaves the elements below and the buffer unchanged |
| StackContainer.Stack.Pop | include/container/stack.hpp:47-54 | on an empty stack returns nothing and changes nothing; otherwise returns the top element and removes only it |
| StackContainer.PopAsWritten | include/container/stack.hpp:47-54 | pop as written: an empty stack gives nothing and no change; otherwise the stack shrinks by its top slot and the result is read from that slot after its element was destroyed |
| StackContainer.PopAsWrittenLosesTop | include/container/stack.hpp:51-53 | on every non-empty stack with a live top element, pop as written does not return that element |
| StackContainer.PushThenPop | include/container/stack.hpp:40-54 | push(x) then pop() returns x and restores contents and size |
| StackContainer.LastInFirstOut | include/container/stack.hpp:40-54 | two pushes then two pops return the elements in reverse order and restore the contents |

## Left out

- Allocator mechanics are not modelled: `polymorphic_allocator`, `alloc::construct`/`destroy`/`allocate`/`deallocate`, `allocate_pool`, `free_pool`, `postorder_destroy_nodes`, the destructors, `allocate_stack`'s raw allocation, `free_stack` and `destroy_stack`. They are memory-lifetime details; storage is treated abstractly.
- AvlContainer.AvlTree.CreateNode: hands out the bump slot `size` as the code does, but nodes are values here. A slot handed out while a live node still occupies it therefore does not overwrite that node. This happens after erasures that are not last-in-first-out, so the model does not capture that corruption.
- The `l`/`r` versus `c[2]` union of a node is modelled as a `Side` index (`Child`, `WithChild`), not as overlapping storage.
- Keys are `int` ordered by `<` (the default `std::less`); the `Compare` and `Key` template parameters are not modelled generically. Values stay a type parameter.
- Cached heights are `nat`, not the source's `std::int32_t`. `size`, `cap` and `top` are `nat`, not `std::size_t`. No overflow is modelled; a height above 2^31 would need more nodes than memory holds.
- AvlContainer.AvlTree.DestroyNode: requires `size > 0`. The code would wrap `size_` around below zero, but it is only called for a live node.
- The visitor of `inorder` is not modelled as a callback: `Inorder` returns the pairs it would be called with, in order.
- StackContainer.Stack.Push: takes one element value instead of constructor arguments forwarded into the slot (`Args&&...`).
- StackContainer.Stack.Pop: returns the top element, as the doc-comment of `pop` intends; the code as written returns a copy of an already destroyed element (see "## Findings", modelled by `PopAsWritten`). The slot `S[top]` left behind keeps its old value; it lies outside the stack's contents.
- The height bound is stated through the Fibonacci minimum-size fact, not as a real logarithm.
- test/asio_tcp_server_timeout/main.cpp and test/daytime_udp_server/main.cpp are network and timer I/O examples and are not part of this model.

## Findings

| source | as written | input that shows it | evidently intended | confidence | as-written member | corrected member |
|---|---|---|---|---|---|---|
| include/container/stack.hpp:51-53 | `decltype(auto) top = std::move(S_[top_ - 1])` makes `top` a `T&&` bound to the top slot; line 52 destroys that slot's element and line 53 copies from `top`, so the result is read from a destroyed object (undefined behaviour for a `T` with a non-trivial destructor, such as `std::string`) | a stack holding one `std::string`, then `pop()` | take the element out (move it into a local `T`) before destroying the slot, and return it | high, not executed | StackContainer.PopAsWrittenLosesTop | StackContainer.Stack.Pop |
