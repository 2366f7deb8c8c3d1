# A verified model of the n-ary tree container of `include/tree.h`

`include/tree.h` is a header-only C++ container `tree<T>`. It stores a
rooted, ordered tree of values. Every node holds one value and five links:
parent, first child, last child, previous sibling and next sibling. The file
provides:

- the linkage primitives of `tree_node`: `push_back_child`,
  `push_front_child`, `unlink_child`, `replace` and `insert_sibling`;
- node storage in `tree_storage`: `create_node`, `clear_node_impl` and
  `clear`;
- the container `tree` itself: vertical and horizontal `insert`,
  `append_child`, `prepend_child`, `erase_subtree`, `size`, `empty` and
  `clear`, with the helpers `insert_node_vert`, `insert_node_hor`,
  `find_last_node` and `count_nodes`;
- a pre-order view with a bidirectional `pre_order_iterator` (`==`, `++`,
  `--`), `begin`, `end`, `front` and `back`.

The model keeps the source's imperative form.

- The live nodes are a map from node identities to node records. The map is
  a field of the class `TreeContainer.Tree`, beside `root`, `nodeCount`
  (`node_count`) and the next identity the allocator hands out.
- Each linkage primitive is a method. It rewrites the link fields of the
  nodes it touches, in the order the source does. It is proved equal to a
  heap function in `Linkage`.
- A lemma proves that each primitive keeps the links well formed (`WF`).
  Well formed means: the links of every node agree with a ghost child list,
  and a rank strictly increases from parent to child, so the structure has
  no cycle.
- The specification of the whole container is its pre-order (`Order`, and
  `Tree.Ids()`). Each insert is proved to put the new node at a stated index
  of the pre-order. It is also proved to change the ghost child lists
  exactly as the source does: the receiving list gains the new node at a
  stated place and every other list stays as it was. Under `WF` the child
  lists fix every link, and the lemmas `SiblingLinks`, `AdoptLinks` and
  `AppendLinks` spell out the new node's parent and siblings. The erase is
  proved to cut out exactly the block of the pre-order that is the erased
  subtree. It is also proved to remove the node from its parent's list and
  to leave every other surviving list unchanged.
- An iterator is the value `Cursor(curr, prev)`. `++` and `--` are proved to
  move from pre-order index `k` to `k + 1` and to `k - 1`. Past the last
  node the cursor is the end cursor.

Modules:

- `links.dfy` (`TreeLinks`): nodes, links, well-formedness.
- `preorder.dfy` (`PreOrder`): pre-order, successor and predecessor.
- `linkage.dfy` (`Linkage`): the linkage primitives as heap functions, and
  their preservation lemmas.
- `subtrees.dfy`, `splice.dfy` and `effects.dfy` (`Subtrees`, `Splice`,
  `Effects`): how each change to the links changes the pre-order.
- `tree.dfy` (`TreeContainer`): the container.
- `cursor.dfy`, `iterator.dfy` and `view.dfy` (`Cursors`,
  `PreOrderIterator`, `PreOrderView`): the iterator and the view.

Where the documented behaviour and the code disagree, the model follows the
code. The description of `clear()` promises that the tree becomes empty.
`tree::clear` as written does not reset `root` or `node_count` (see
Findings).

## Model

| member | source | states |
|---|---|---|
| TreeContainer.Tree.constructor | include/tree.h:503-505 | a new tree has no root and no live node, its size is zero, and it satisfies the container invariant |
| TreeContainer.Tree.CreateNode | include/tree.h:457-461 | the node made holds the value, has all five links null and is a fresh identity; nothing else changes |
| TreeContainer.Tree.PushBackChild | include/tree.h:183-198 | a detached node becomes the last child of `p`; the heap is `PushBackHeap`, and `p`'s child list gains it at its end |
| TreeContainer.Tree.PushFrontChild | include/tree.h:200-215 | a detached node becomes the first child of `p`; `p`'s child list gains it at its front |
| TreeContainer.Tree.UnlinkChild | include/tree.h:217-240 | the child at index `i` of its parent's list leaves that list, and it ends detached with no parent or siblings; ranks are kept |
| TreeContainer.Tree.ReplaceLinks | include/tree.h:242-269 | the field-by-field rewriting of `replace` computes `ReplaceHeap` |
| TreeContainer.Tree.Replace | include/tree.h:242-269 | the new node takes the place of the old one in its parent's child list, and the old node ends detached; for a parentless old node nothing changes |
| TreeContainer.Tree.InsertSibling | include/tree.h:271-289 | the new node enters the old node's parent's child list just before the old node |
| TreeContainer.Tree.CountNodes | include/tree.h:636-644 | the count is the number of nodes in the pre-order of the subtree of `n` |
| TreeContainer.Tree.FindLastNode | include/tree.h:624-634 | the result is null for an empty tree; otherwise it is the end of the chain of last children, which is the last node of the pre-order |
| TreeContainer.Tree.InsertNodeVert | include/tree.h:589-606 | the new node enters the pre-order at the index of `o` (last at the end cursor); `VertPlaced` gives the whole new child map of each of the four branches: in `o`'s slot under `o`'s parent with `o` as its only child; above the root `o`; as the last child of `find_last_node()`; as the root of an empty tree |
| TreeContainer.Tree.AdoptInPlace | include/tree.h:590-597 | the new node takes index `i` of the parent's child list in place of `x`, `x` becomes its only child, and every other child list is unchanged (`AdoptedAt`); the pre-order gains the new node at `x`'s index |
| TreeContainer.Tree.AdoptRoot | include/tree.h:590-597 | when `o` is the root, the new node becomes the root; its only child is the old root, every other child list is unchanged, and it comes first in the pre-order |
| TreeContainer.Tree.VertAtEnd | include/tree.h:598-605 | at the end cursor the child list of the last node (`DeepLast` of the root) gains the new leaf at its end and every other list is unchanged (`AppendedTo`); an empty tree gets it as its root; it enters the pre-order last |
| TreeContainer.Tree.AppendAtEndOf | include/tree.h:599-601 | appending under a node whose chain of last children ends at the last node adds the leaf to the end of that node's child list alone, and puts it last in the pre-order |
| TreeContainer.Tree.AttachLast | include/tree.h:556-568 | `push_back_child(create_node(...))` below `p`: the end of `p`'s child list gains the new leaf, every other list is unchanged, and the pre-order gains it just after `p`'s whole subtree (also reached from include/tree.h:599-601 and 614-617) |
| TreeContainer.Tree.AttachFirst | include/tree.h:570-574 | `push_front_child(create_node(...))` below `p`: the front of `p`'s child list gains the new leaf, every other list is unchanged, and the pre-order gains it just after `p` |
| TreeContainer.SiblingLinks | include/tree.h:271-289 | after a horizontal insert before `x`, the new node has `x`'s old parent and previous sibling, `x` as its next sibling, no children, and `x` points back to it |
| TreeContainer.AdoptLinks | include/tree.h:590-597 | after a vertical insert at `x`, the new node has `x`'s old parent and both old siblings, `x` as first and last child, and `x` hangs under it with no siblings |
| TreeContainer.AppendLinks | include/tree.h:183-198 | after an append below `p`, the new leaf has `p` as parent, the former last child as previous sibling and no next sibling, and it is `p`'s last child |
| TreeContainer.Tree.InsertNodeHor | include/tree.h:608-622 | the new node enters the pre-order at `o`'s index (last at the end cursor); `HorPlaced` gives the whole new child map: just before `o` in `o`'s parent's list; at the end of the list of the last node's parent; or as the root of an empty tree |
| TreeContainer.Tree.SiblingBefore | include/tree.h:609-612 | the new leaf enters `x`'s parent's child list at `x`'s index `i`, just before `x`, and every other list is unchanged (`SiblingAt`); it enters the pre-order at `x`'s index |
| TreeContainer.Tree.HorAtEnd | include/tree.h:613-621 | at the end cursor the child list of the parent of the last node gains the new leaf at its end and every other list is unchanged (`AppendedToParentOfLast`); an empty tree gets it as its root; it enters the pre-order last |
| TreeContainer.Tree.InsertVert | include/tree.h:524-538 | the tree stays valid; a fresh node with the value enters the pre-order at the iterator's index; the child map is that of `VertPlaced` (in the old node's slot with the old node below it, or below the last node at the end); no other value changes and the size grows by one |
| TreeContainer.Tree.InsertHor | include/tree.h:540-554 | the tree stays valid; a fresh leaf with the value enters the pre-order at the iterator's index; the child map is that of `HorPlaced` (just before the old node among its siblings, or last below the last node's parent at the end); no other value changes and the size grows by one |
| TreeContainer.Tree.AppendChild | include/tree.h:556-568 | the tree stays valid; a fresh leaf is added to the end of the parent's child list, every other child list is unchanged, and the leaf enters the pre-order just after the parent's whole subtree; the size grows by one |
| TreeContainer.Tree.PrependChild | include/tree.h:570-574 | the tree stays valid; a fresh leaf is added to the front of the parent's child list, every other child list is unchanged, and the leaf enters the pre-order just after the parent; the size grows by one |
| TreeContainer.Tree.EraseSubtree | include/tree.h:577-586 | the tree stays valid; exactly the pre-order block of the erased subtree is cut out of the pre-order and freed; the parent's child list loses the node at its index and every other surviving list is unchanged (`CutFrom`); the surviving nodes keep their values and the size drops by the subtree's node count |
| TreeContainer.Tree.Detach | include/tree.h:579-582 | the erased node leaves its parent's child list and has no parent; all identities and values are kept |
| TreeContainer.Tree.FreeDetached | include/tree.h:584-585 | after the unlink, counting and freeing the detached subtree leaves a valid tree whose pre-order is the old one with that subtree's block cut out, and whose surviving child lists are the old ones with the node gone from its parent's list (`CutFrom`) |
| TreeContainer.Tree.FreeSubtree | include/tree.h:584-585 | freeing the subtree of a parentless node removes exactly its nodes, and the rest stays well linked |
| TreeContainer.Tree.ClearNode | include/tree.h:441-454 | `clear_node_impl` frees exactly the nodes of the subtree, walking the siblings with the next link saved before each recursive call |
| TreeContainer.Tree.Size | include/tree.h:511-513 | on a valid tree the size is the number of live nodes |
| TreeContainer.Tree.Empty | include/tree.h:515-517 | on a valid tree `empty` holds exactly when there is no live node, and exactly when the size is zero |
| TreeContainer.Tree.StorageClear | include/tree.h:463-467 | `tree_storage::clear` frees every node and leaves `root` and the count as they were |
| TreeContainer.Tree.Clear | include/tree.h:519-521 | as written: on a tree that had nodes, afterwards no node is live, yet `empty()` is false and `size()` is the old size, so the container invariant is broken |
| TreeContainer.Tree.ClearAndReset | include/tree.h:519-521 | as intended: afterwards the tree is valid and empty and its size is zero |
| PreOrderIterator.Increment | include/tree.h:357-371 | `operator++` computes the pre-order successor step `Next`; with `Cursors.NextAt` it moves from index `k` to `k + 1` |
| PreOrderIterator.Decrement | include/tree.h:373-388 | `operator--` computes the step `Prev`; with `Cursors.PrevAt` it moves from index `k` to `k - 1` |
| PreOrderView.Begin | include/tree.h:668-670 | `begin()` is the cursor at index 0 of the pre-order |
| PreOrderView.End | include/tree.h:672-674 | `end()` is the cursor one past the last pre-order index; on an empty tree it equals `begin()` |
| PreOrderView.Front | include/tree.h:700-706 | `front()` is the value of the first node in pre-order |
| PreOrderView.Back | include/tree.h:708-714 | `back()` is the value of the last node in pre-order |
| Cursors.NextAt | include/tree.h:357-371 | `++` moves from pre-order index `k` to `k + 1`; from the last node it reaches the end cursor |
| Cursors.PrevAt | include/tree.h:373-388 | `--` moves from pre-order index `k` to `k - 1`; from the end cursor it reaches the last node |
| Cursors.PrevNext | include/tree.h:357-388 | `--` undoes `++` on every cursor that stands on a node |
| Cursors.NextPrev | include/tree.h:357-388 | `++` undoes `--` on every cursor but the first |
| Cursors.AtInjective | include/tree.h:319-322 | two cursors of a tree are equal under `==` if and only if they stand at the same pre-order index |
| PreOrder.OrderSucc | include/tree.h:357-371 | the successor of the node at pre-order index `j` is the node at index `j + 1`, or null after the last |
| PreOrder.OrderPred | include/tree.h:373-388 | the predecessor of the node at index `j` is the node at index `j - 1`, or null before the first |
| PreOrder.OrderLast | include/tree.h:624-634 | the end of the root's chain of last children is the last node of the pre-order |
| PreOrder.OrderComplete | include/tree.h:668-674 | the pre-order from `begin()` visits every live node once and no other node |
| Linkage.PushBackWF | include/tree.h:183-198 | attaching a detached node that is not an ancestor of `p` as its last child keeps the links well formed, with the node appended to `p`'s child list |
| Linkage.PushFrontWF | include/tree.h:200-215 | attaching as the first child keeps the links well formed, with the node prepended to `p`'s child list |
| Linkage.UnlinkWF | include/tree.h:217-240 | unlinking a child keeps the links well formed, removes the child from its parent's list at its index, and leaves it detached |
| Linkage.ReplaceWF | include/tree.h:242-269 | replacing a child by a detached node keeps the links well formed, with the new node at the old one's index, and leaves the old node detached |
| Linkage.InsertSiblingWF | include/tree.h:271-289 | inserting a detached node before a child keeps the links well formed, with it at that child's former index |
| Linkage.AddFreshWF | include/tree.h:457-461 | adding a fresh node with null links keeps the links well formed, as a node with no children |
| Linkage.PushBackKeeps | include/tree.h:183-198 | `push_back_child` keeps every identity and value, and changes no parent but the attached node's |
| Linkage.PushFrontKeeps | include/tree.h:200-215 | `push_front_child` keeps every identity and value, and changes no parent but the attached node's |
| Linkage.UnlinkKeepsAll | include/tree.h:217-240 | `unlink_child` keeps every identity and value, and changes no parent but the unlinked node's |
| Linkage.ReplaceKeepsAll | include/tree.h:242-269 | `replace` keeps every identity and value, and changes no parent but those of the two nodes |
| Linkage.InsertSiblingKeepsAll | include/tree.h:271-289 | `insert_sibling` keeps every identity and value, and changes no parent but the inserted node's |
| Subtrees.FreeStep | include/tree.h:443-449 | one round of the sibling walk of `clear_node_impl`: the next child's subtree is still intact, and freeing it extends the freed prefix of the children |
| Subtrees.FreeLast | include/tree.h:450-453 | freeing the node after its children's subtrees frees its whole subtree |
| Effects.FreeCount | include/tree.h:584-585 | freeing a subtree removes as many live nodes as `count_nodes` counts |
| Effects.InsertBefore | include/tree.h:271-289 | a node inserted into the subtree of `q` at a subtree index enters the whole tree's pre-order at the matching index, and the tree stays rooted |
| Effects.AppendUnder | include/tree.h:556-568 | appending a leaf under `p` places it in the pre-order right after `p`'s subtree block |
| Effects.PrependUnder | include/tree.h:570-574 | prepending a leaf under `p` places it in the pre-order right after `p` |
| Effects.AdoptFrom | include/tree.h:592-597 | replacing a child by the new node and hanging the child under it puts the new node at the child's pre-order index |
| Effects.SiblingFrom | include/tree.h:609-612 | a new previous sibling of a child takes that child's pre-order index |
| Effects.VertRoot | include/tree.h:594-597 | a new root over the old root is first in the pre-order, followed by the old pre-order |
| Effects.SingleRoot | include/tree.h:602-603 | a single node as the root of an empty tree makes a one-node pre-order |
| Effects.EndBlock | include/tree.h:599-601 | a node whose chain of last children ends at the last node has its subtree block at the end of the pre-order |
| Effects.EraseAt | include/tree.h:577-586 | removing a child's subtree from the tree cuts exactly that subtree's block out of the pre-order |
| Effects.EraseOrder | include/tree.h:577-586 | after unlinking and freeing, the tree is rooted and its pre-order is the old one with the subtree's block removed |
| Splice.SpliceAt | include/tree.h:183-289 | a change confined to the subtree of `p` changes the pre-order of every ancestor only by replacing the block of `p`'s subtree |

## Left out

- Allocators: `allocator_traits::allocate`, `construct`, `destroy` and `deallocate` are modelled by a counter of fresh identities and by removing nodes from the map; allocation failure and exceptions are not modelled.
- `enable_special_members`, the copy and move constructors and assignments, and the tree constructors that take an allocator or a root value: they are C++ object lifetime, not tree logic.
- The destructor `~tree_storage` only calls `clear`, which is modelled.
- `reinterpret_cast` and `static_cast` between `tree_node` and its implementation record: the model has one node record.
- Reverse iterators, `cbegin`/`cend`, the const overloads and postfix `++`/`--`: they wrap the modelled operations.
- The lvalue and rvalue overloads of `insert` and `append_child` are one method each, because the value is copied or moved the same way into the new node. `prepend_child` has only an rvalue overload in the source.
- `size_t` is modelled as an unbounded natural number. On a valid tree `node_count` never exceeds the number of live nodes, so no subtraction wraps.
- TreeContainer.Tree.InsertHor: it requires what the source needs to avoid a null dereference. With a node under the cursor, that node must have a parent. At the end cursor, the root must have a child, so that the last node has a parent.
- TreeContainer.Tree.EraseSubtree: it requires the erased node to have a parent, because `parent->unlink_child` dereferences it.
- TreeContainer.Tree.InsertVert, InsertHor, AppendChild, PrependChild and EraseSubtree take a ghost pre-order index `k` of the iterator's node. It only states where the change lands, and no code reads it.
- TreeContainer.Tree.InsertVert, InsertHor, AppendChild and PrependChild increment `nodeCount` before the linking call rather than after. Nothing in between reads it, so the final state is the same.
- The test program `test/test.cpp` is not part of this model.

## Findings

| source | as written | input that shows it | evidently intended | confidence | as-written member | corrected member |
|---|---|---|---|---|---|---|
| include/tree.h:519-521 | `tree::clear` calls only `tree_storage::clear`, which frees the nodes but leaves `root` pointing at the freed root and `node_count` unchanged | a tree with one node: after `clear()`, `empty()` is false, `size()` is 1, and `begin()` stands on freed storage | `clear()` leaves an empty tree: `root` null and `node_count` zero | not executed | TreeContainer.Tree.Clear | TreeContainer.Tree.ClearAndReset |
