# AVL-tree ordered set, modelled in Dafny

The repository is a single header, `avl.h`. It defines a generic ordered set `Set<T>`, stored as an AVL tree whose nodes keep parent links. This project models that set with `int` keys in three modules.

- **`AvlTree`** (`avl_tree.dfy`) is the tree engine, written as pure functions over a `Tree` datatype. Each node carries its heap address (`id`), its key and its cached height.
  - Functions: `update`, the four rotations, `rebalance`, `find_min`, `remove_min`, `insert`, `erase` with its matching-node case `Unlink`, and `find`.
  - The lemmas prove the following:
    - BST ordering, correct cached heights (`h(null) = 0`) and AVL balance are preserved, as is exclusive ownership of cells.
    - `insert` adds exactly one node, in the fresh cell, when the key is new, and changes nothing when the key is already stored.
    - `erase` removes exactly the node `find` reaches, and changes nothing for an absent key.
    - The two-child case of `erase` reuses the cell of the right subtree's minimum as the new subtree root.
- **`AvlOrder`** (`avl_order.dfy`) holds the order facts used by the queries:
  - the in-order sequence: strictly increasing, one entry per key, each entry's successor is the next key;
  - which cell holds which key, and where `begin_` ends up after insert and erase;
  - the node at which `lower_bound`'s descent stops;
  - the subtree at a given cell, and where the next and previous keys of a node lie.
- **`AvlSet`** (`avl_set.dfy`) is the heap-level set: `class Set` with the fields `root_`, `size_` and `begin_`.
  - The heap is a field `cells: map<int, Cell>` mapping each address to its node's left, right and parent pointers, height and value. `NIL` (-1) is `nullptr` and also the `end()` position.
  - Every mutating routine of `avl.h` is a method that updates `cells` in place, in the same order as the C++. Each method is proved to realise the engine function on the subtree it works on; a ghost field `tree` records the whole tree. The routines are: `link_left/right`, `update`, the rotations, `rebalance`, the private recursive `insert`, `erase` and `remove_min`, `copy`, and the public `insert` and `erase`.
  - The iterator's `operator++` and `operator--` are methods with the source's `while` loops over child and parent pointers. They are proved to land on the next or previous key; `--` from `end()` lands on the maximum. Composed, `--` undoes `++` from every position, and `++` undoes `--` from every position but `begin()`.
  - The class invariant `Valid()` covers the following:
    - the cells hold an AVL tree rooted at `root_` whose root has no parent;
    - every allocated cell is a node of that tree;
    - `size_` is the node count;
    - `begin_` is the cell of the smallest key, or `NIL` when the set is empty.

Allocation is modelled by a counter `next`: `new Node` takes the address `next` and increments it. `delete` removes the cell from the map.

## Model

| member | source | states |
|---|---|---|
| AvlTree.Update | avl.h:185-187 | update keeps the node and its children and sets a height that is correct whenever the children's heights are |
| AvlTree.RotateRight | avl.h:199-207 | rotate_right makes the left child the root, keeps the nodes, keys and in-order sequence, and keeps ordering and cell ownership |
| AvlTree.RotateLeft | avl.h:209-217 | rotate_left is the mirror image: the right child becomes the root, with the same nodes, keys and ordering |
| AvlTree.RotateRightKeeps | avl.h:199-207 | the tree the right rotation builds is ordered and owns its cells whenever the input is |
| AvlTree.RotateLeftKeeps | avl.h:209-217 | the same for the left rotation |
| AvlTree.RotateLeftBig | avl.h:219-222 | rotate_left_big makes the right child's left child the root, with the same nodes, keys and ordering |
| AvlTree.RotateRightBig | avl.h:224-227 | rotate_right_big is the mirror image |
| AvlTree.Rebalance | avl.h:229-245 | rebalance keeps the nodes, keys, ordering and cell ownership of the subtree |
| AvlTree.RotateLeftBalances | avl.h:232-235 | a node that is right-heavy by 2, with a right child whose diff is <= 0, becomes balanced after a single left rotation, with a height at most one lower |
| AvlTree.RotateRightBalances | avl.h:239-241 | the mirror image, for a left-heavy node whose left child's diff is >= 0 |
| AvlTree.RotateLeftBigBalances | avl.h:236-238 | a right-heavy node whose right child leans left becomes balanced after the double rotation, and its height drops by one |
| AvlTree.RotateRightBigBalances | avl.h:242-243 | the mirror image of the double rotation case |
| AvlTree.RebalanceRestores | avl.h:229-245 | with AVL children, correct heights and abs(diff) <= 2, rebalance returns an AVL subtree whose height is the same or one lower, and returns an already balanced node unchanged |
| AvlTree.HeightNonNegative | avl.h:177-179 | correct cached heights are never negative |
| AvlTree.Diff | avl.h:181-183 | get_diff on the tree: when the children's cached heights are correct, the balance factor is the difference of their real heights |
| AvlTree.CachedIsReal | avl.h:185-187 | correct cached heights equal the real height, so the balance checked on cached heights is the AVL condition |
| AvlTree.FindMin | avl.h:326-328 | find_min reaches a node without a left child that holds the smallest key of an ordered subtree |
| AvlTree.FindMax | avl.h:123-127 | the rightmost node, where operator-- from end() stops, holds the largest key |
| AvlTree.RemoveMin | avl.h:330-338 | remove_min keeps correct heights and balance, and the height goes down by at most one |
| AvlTree.RemoveMinEntries | avl.h:330-338 | remove_min takes out exactly the minimum node, keeping every other node with its key |
| AvlTree.RemoveMinKeeps | avl.h:330-338 | after remove_min the tree is ordered and owns its cells, the minimum's cell is gone, and every remaining key is above the minimum |
| AvlTree.NewNode | avl.h:249-251 | the corrected new node: a leaf with height 1 whose only entry is (cell, key) |
| AvlTree.Insert | avl.h:247-264 | insert keeps correct heights and balance, and the height grows by at most one |
| AvlTree.InsertEntries | avl.h:247-264 | inserting an absent key adds exactly the new cell holding the key |
| AvlTree.InsertPresent | avl.h:259-260 | inserting a stored key returns the same tree: no node is made and nothing changes |
| AvlTree.InsertKeeps | avl.h:247-264 | insert keeps the ordering and the exclusive ownership of cells |
| AvlTree.InsertContents | avl.h:247-264 | after insert the keys are the old keys plus the new key and the full invariant holds; a stored key changes nothing; a new key adds exactly one node |
| AvlTree.Erase | avl.h:266-294 | erase keeps correct heights and balance, and the height drops by at most one |
| AvlTree.Unlink | avl.h:278-290 | taking out the matched node, by either of the source's two cases, keeps correct heights and balance and lowers the height by at most one |
| AvlTree.UnlinkStep | avl.h:284-289 | in the two-child case the replacement root reuses exactly the minimum node of the right subtree, that is its cell, key and height, and is then updated and rebalanced |
| AvlTree.EraseAbsent | avl.h:266-268 | erasing an absent key leaves the tree unchanged |
| AvlTree.EraseEntries | avl.h:266-294 | erasing a stored key takes out exactly the node find reaches, keeping every other node with its key |
| AvlTree.EraseKeeps | avl.h:266-294 | erase keeps the ordering and cell ownership, and the key is gone afterwards |
| AvlTree.EraseContents | avl.h:266-294 | after erase the keys are the old keys minus the erased key and the full invariant holds; an absent key changes nothing |
| AvlTree.Find | avl.h:296-306 | in an ordered tree find reaches a node exactly when the key is stored, and that node holds the key |
| AvlTree.NewNodeAsWritten | avl.h:63-70 | the node as the constructor builds it: height 0, the same as a null pointer, which breaks the correct-height invariant |
| AvlTree.AsWrittenChain | avl.h:247-264 | with height-0 leaves, inserting 1, 2 and 3 leaves a chain whose real balance at the root is -2 |
| AvlOrder.InorderContents | avl.h:101-114 | the in-order sequence holds exactly the keys, one entry per node |
| AvlOrder.InorderSorted | avl.h:101-114 | the in-order sequence of an ordered tree is strictly increasing |
| AvlOrder.SizeIsCard | avl.h:55-57 | in an ordered tree the node count, which is what size_ holds, is the number of distinct keys |
| AvlOrder.InorderWalk | avl.h:101-114 | the in-order sequence starts at the smallest key, each entry's next key is the entry after it, the last entry has nothing above it, and there are size_ entries |
| AvlOrder.InsertMin | avl.h:251-253 | after insert the minimum's cell is the new cell when the key is new and below the old minimum (or the tree was empty); otherwise it is the old minimum's cell |
| AvlOrder.EraseMin | avl.h:275-277 | after erasing a stored key, the minimum's cell is the old one unless the minimum itself was erased; in that case it is the next key's cell, or the tree is empty |
| AvlOrder.LowerBoundNode | avl.h:308-324 | the private lower_bound descent stops at a node of the subtree |
| AvlOrder.LowerBoundNodeIsNeighbour | avl.h:308-324 | the stopping node holds either the smallest key >= key or the largest key < key |
| AvlOrder.BelowThenNext | avl.h:163-165 | when the stopping node is below key, its next key is the smallest key >= key; when it has none, every key is below key |
| AvlOrder.NextViaRight | avl.h:102-106 | for a node with a right child, the next key is at the leftmost node of the right subtree |
| AvlOrder.NextViaParent | avl.h:107-111 | the next key after the largest key of a node's left subtree is the node's own key, which is where the climb from a node without a right child stops: at the first ancestor reached from a left child |
| AvlOrder.PrevViaLeft | avl.h:128-132 | for a node with a left child, the previous key is at the rightmost node of the left subtree |
| AvlOrder.PrevViaParent | avl.h:133-137 | the previous key before the smallest key of a node's right subtree is the node's own key, which is where the climb from a node without a left child stops: at the first ancestor reached from a right child |
| AvlSet.GetHeight | avl.h:177-179 | get_height on the cells: on a pointer to any subtree the cells represent, it is that subtree's height, so 0 for null |
| AvlSet.GetDiff | avl.h:181-183 | get_diff on the cells: at the root cell of any subtree the cells represent, it is that subtree's balance factor |
| AvlSet.HeightRead | avl.h:177-179 | get_height on a pointer to a represented subtree reads that subtree's height, and 0 for null |
| AvlSet.DiffRead | avl.h:181-183 | get_diff on the cell of a subtree's root is the subtree's balance factor |
| AvlSet.FindMinAt | avl.h:326-328 | find_min on the cells returns the cell of the subtree's minimum node, which has no left child |
| AvlSet.FindAt | avl.h:296-306 | find on the cells returns the cell that find reaches in the tree; a non-null result holds the key |
| AvlSet.LowerBoundAt | avl.h:308-324 | the private lower_bound on the cells returns the cell of the node where the descent stops, and that cell holds the node's key |
| AvlSet.SameCells | avl.h:259-260 | two heaps holding the same tree over exactly its cells, with the same root parent, are equal; this is why a stored key leaves the heap as it was |
| AvlSet.InsertedValid | avl.h:43-46 | after insert and resetting the root's parent, the invariant holds with size_ counting the new node and begin_ at the new minimum; a stored key changes neither heap nor tree |
| AvlSet.ErasedValid | avl.h:48-53 | after erase and resetting the root's parent (when there is a root), the invariant holds with size_ and begin_ updated; an absent key changes neither heap, tree nor begin_ |
| AvlSet.InsertedBegin | avl.h:251-253 | moving begin_ to the new cell when the key is new and the set was empty or the key is below *begin_ leaves begin_ at the cell of the new minimum |
| AvlSet.ErasedBegin | avl.h:275-277 | stepping begin_ to the successor of the erased key in the old tree exactly when its cell is erased leaves begin_ at the new minimum, or at end() |
| AvlSet.WalkStep | avl.h:101-114 | from the position of the i-th in-order key, ++ lands on the position of the (i+1)-th, and on end() after the last one |
| AvlSet.NextThenPrev | avl.h:101-140 | from any position whose ++ does not reach end(), -- after ++ returns to the same position |
| AvlSet.PrevThenNext | avl.h:101-140 | from any position whose -- does not fall off before the smallest key, ++ after -- returns to the same position |
| AvlSet.LastThenEnd | avl.h:101-140 | ++ reaches end() only from the rightmost node, which is where -- from end() lands, so -- undoes that step too |
| AvlSet.MinAtBegin | avl.h:149-151 | begin_ is end() exactly for the empty set, and otherwise holds the smallest key |
| AvlSet.Set.LinkLeft | avl.h:189-192 | link_left sets u's left pointer to v and, when v is not null, v's parent to u |
| AvlSet.Set.LinkRight | avl.h:194-197 | link_right is the mirror image |
| AvlSet.Set.UpdateAt | avl.h:185-187 | update writes 1 + the larger child height into u's cell and changes nothing else |
| AvlSet.Set.RotateRightAt | avl.h:199-207 | rotate_right on the cells makes them hold RotateRight of the subtree, writes only cells of the subtree and returns the new root |
| AvlSet.Set.RotateLeftAt | avl.h:209-217 | the same for rotate_left |
| AvlSet.Set.RotateLeftBigAt | avl.h:219-222 | the same for rotate_left_big |
| AvlSet.Set.RotateRightBigAt | avl.h:224-227 | the same for rotate_right_big |
| AvlSet.Set.RebalanceAt | avl.h:229-245 | rebalance on the cells makes them hold Rebalance of the subtree and returns its root |
| AvlSet.Set.SettleAt | avl.h:262-263 | the closing update(u) and rebalance(u) of insert, erase and remove_min: when the cells with u's height recomputed hold a subtree, they end up holding its Rebalance, only that subtree's cells are written, and its new root is returned |
| AvlSet.Set.NewLeaf | avl.h:248-253 | a new node with null links and the corrected height 1 in a fresh cell; size_ is incremented, and begin_ moves to the new node when the set was empty or the key is below *begin_ |
| AvlSet.Set.InsertAt | avl.h:247-264 | the private insert on the cells makes them hold Insert of the subtree. It writes only the subtree's cells and the new cell. It adds a cell and counts it in size_ exactly when the key is new, and moves begin_ as the source does |
| AvlSet.Set.RemoveMinAt | avl.h:330-338 | remove_min on the cells makes them hold RemoveMin of the subtree and returns its root |
| AvlSet.Set.ReplaceAt | avl.h:283-290 | the two-child case on the cells makes them hold Unlink of the subtree, with v = find_min(u->right) as the new root, and deletes u's cell |
| AvlSet.Set.UnlinkAt | avl.h:273-290 | the matched node is counted out of size_. begin_ steps to the successor first when the node is begin_. The node's cell is deleted, and the cells then hold Unlink of the subtree |
| AvlSet.Set.EraseAt | avl.h:266-294 | the private erase on the cells makes them hold Erase of the subtree. It deletes exactly the cell find reaches, and only when the key is stored. size_ goes down by one in that case, and begin_ steps to the successor in the old tree when that cell was begin_ |
| AvlSet.Set.SetRoot | avl.h:44-52 | the root the engine returned becomes root_ with a null parent, and the set's invariant holds for the new tree |
| AvlSet.Set.Next | avl.h:101-114 | operator++ lands on the cell holding the next key of the whole tree, or on null (end()) from the largest key |
| AvlSet.Set.Prev | avl.h:122-140 | operator-- from end() lands on the largest key; from any other position it lands on the cell holding the previous key, or on null from the smallest key |
| AvlSet.Set.constructor | avl.h:8 | the default constructor makes the empty set, and the invariant holds |
| AvlSet.Set.CopyAt | avl.h:340-346 | copy gives every node of the other set's subtree a new cell with its height and value, linked like the original, so this heap holds the same subtree |
| AvlSet.Set.CopyFrom | avl.h:23-27 | after copying, the heap and tree equal the other set's, size_ is taken over, and begin_ is recomputed with find_min |
| AvlSet.Set.Copy | avl.h:23-27 | the copy constructor gives a set satisfying the invariant with the other set's tree, heap contents and size |
| AvlSet.Set.Assign | avl.h:29-37 | operator= frees this set's nodes and copies the other's; assigning a set to itself changes nothing |
| AvlSet.Set.Insert | avl.h:43-46 | the keys become the old keys plus key and the invariant holds. A new key adds one cell and one to size_. A stored key leaves the heap, root_, size_ and begin_ unchanged |
| AvlSet.Set.Erase | avl.h:48-53 | the keys become the old keys minus key and the invariant holds. A stored key loses its cell and size_ goes down by one. An absent key leaves the heap, root_, size_ and begin_ unchanged |
| AvlSet.Set.Size | avl.h:55-57 | size() is the number of stored keys |
| AvlSet.Set.Empty | avl.h:59-61 | empty() holds exactly when no key is stored |
| AvlSet.Set.End | avl.h:153-155 | end() is no cell of the heap, and begin() equals it exactly when the set is empty |
| AvlSet.Set.Begin | avl.h:149-151 | begin() is end() exactly for the empty set; otherwise it is the position of the smallest key |
| AvlSet.Set.Deref | avl.h:85-87 | operator* at a position other than end() yields a stored key |
| AvlSet.Set.Find | avl.h:157-159 | find() is not end() exactly when the key is stored, and then it is the position holding the key |
| AvlSet.Set.LowerBound | avl.h:161-169 | lower_bound() is end() exactly when every key is below key (the empty set included); otherwise it is the position of the smallest key >= key |

## Left out

- Genericity: keys are `int`, compared with `<`. Two keys are equal when neither is below the other, which for `int` is `==`.
- `operator->` and post-increment/decrement are left out. They are thin wrappers over `*`, pre-increment and pre-decrement.
- `operator==` and `operator!=` compare the node pointers. Positions here are plain `int` addresses, compared with `==`.
- The iterator's `const Set<T>*` container pointer is not modelled. `Next` and `Prev` are methods of the set, and `--` from `end()` reads the set's own `root_`.
- The range constructor over arbitrary iterators and the `std::initializer_list` constructor are left out. They are loops of `insert`, which `AvlSet.Set.Insert` covers.
- The destructor and `free` are left out: Dafny has no deallocation beyond dropping cells. `operator=` models `free` as emptying this set's heap.
- Allocation failure and the addresses `new` returns are left out. An allocation takes the next unused number of the set's own heap.
- `AvlSet.Set.CopyAt`: each set has its own heap, so copy keeps the other set's addresses inside this set's heap instead of taking new ones. The copy is disjoint from the original because it lives in another object.
- The model has no concurrency or exceptions. The source is single-threaded and its `T` operations are assumed not to throw.
- `AvlTree.NewNode`: the model's new node has height 1, the corrected value, rather than the 0 the source writes (see Findings). Everything proved about insert uses the corrected node.
- `AvlSet.Set.NewLeaf`: the heap cell that insert allocates likewise gets height 1 rather than the source's 0, so that it holds `AvlTree.NewNode`.

## Findings

| source | as written | input that shows it | evidently intended | confidence | as-written member | corrected member |
|---|---|---|---|---|---|---|
| avl.h:67-70 | `Node(T)` leaves `height = 0`, so a fresh leaf has the height of a null pointer and `get_diff` cannot tell a leaf from an empty subtree | insert 1, 2, 3 into an empty set: no rotation happens, and the root ends up with real balance -2 (a chain) | a new node is a leaf of height 1, so `update`'s heights are real heights and `rebalance` sees the imbalance | high (proved on the model; not executed) | AvlTree.AsWrittenChain | AvlTree.InsertContents |
