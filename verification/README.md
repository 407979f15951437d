# rb_tree: the binary search tree, in Dafny

The `rb_tree` crate holds `BinaryTree<T>`, a plain unbalanced binary search
tree. Despite the crate's name it has no colours, rotations or rebalancing
yet. A tree is one node with a key (`data`) and two optional boxed children,
so it is never empty. The crate offers:

- `new`, a one-node tree;
- `left` and `right`, builders that set one child slot;
- `insert`, a loop that walks a mutable cursor down the tree and attaches a new
  leaf in the empty child slot where the key belongs, or returns unchanged
  when it meets the key;
- `contains`, the same descent, which reports whether it meets the key.

Both descents go right when the node's key is smaller than the searched key
and left otherwise.

This project models that code and proves what it promises:

- `rb_tree.dfy`, module `RbTree`:
  - the tree as a datatype;
  - its key set `Keys`, its keys with multiplicity `Bag`, and the
    search-tree ordering `Ordered`;
  - the three constructors;
  - recursive reference definitions of the descent (`Search`) and of
    insertion (`Inserted`);
  - `insert` and `contains` as the loops the source runs;
  - the lemmas that connect all of these.
- `rb_tree_scenarios.dfy`, module `RbTreeScenarios`: the scenarios of the
  crate's unit tests, restated as lemmas and as methods whose assertions the
  verifier proves (`ContainsScenario` and `InsertScenario` carry no contract
  and only assert the tests' expectations).

Keys are `int`. The source is generic over `T: PartialOrd`, and its
comparison chain "equal, else less, else greater" is a total three-way
comparison only on a totally ordered key type.

A boxed child is owned by exactly one parent, so a tree is a value. `insert`
takes `&mut self`; it is modelled as a method that returns the updated tree.
Its cursor `node` is modelled as the path of directions from the root to the
node it points at. Writing the new leaf through the cursor is modelled by
`Replace`: the tree rebuilt with that one node's child slot filled.

## Model

| member | source | states |
|---|---|---|
| `RbTree.New` | rb_tree/src/lib.rs:14-20 | The new tree holds exactly the key `x` in its one node, with both children absent. It is ordered, and a lookup finds `x` and no other key. |
| `RbTree.WithLeft` | rb_tree/src/lib.rs:22-25 | The left slot holds `n`, replacing whatever was there. The key and the right child are unchanged, and the key set is the node's key plus `n`'s keys plus the right child's keys. Lookups of keys below the node's key now answer as in `n`; all other lookups answer as before. Ordering is not checked. |
| `RbTree.WithRight` | rb_tree/src/lib.rs:27-30 | The mirror of `WithLeft`: the right slot holds `n`, and lookups of keys above the node's key now answer as in `n`. |
| `RbTree.Search` | rb_tree/src/lib.rs:59-79 | Reference definition of the descent: true on an equal key, right when the node's key is smaller, otherwise left, false at an absent child. Any key it finds is stored in the tree. |
| `RbTree.Inserted` | rb_tree/src/lib.rs:32-54 | Reference definition of insertion: the tree after inserting `x`. Its key set is the old key set plus `x`, and the descent finds `x` in it. |
| `RbTree.InsertedNewBag` | rb_tree/src/lib.rs:38-51 | When the descent does not find `x`, the multiset of keys grows by exactly one copy of `x`. |
| `RbTree.InsertedAttachesLeaf` | rb_tree/src/lib.rs:38-51 | When the descent does not find `x`, the inserted tree is the old tree with a new leaf holding `x` written into a child slot that was empty. No other node, key or child changes. |
| `RbTree.InsertedOrdered` | rb_tree/src/lib.rs:38-51 | Insertion keeps an ordered tree ordered. The new key goes right of smaller keys and left of greater ones. |
| `RbTree.InsertedFoundIsNoop` | rb_tree/src/lib.rs:36-37 | When the descent already meets `x`, insertion returns the tree unchanged. This holds on any tree, ordered or not. |
| `RbTree.InsertedMemberIsNoop` | rb_tree/src/lib.rs:36-37 | On an ordered tree, inserting a key that is already stored changes nothing. |
| `RbTree.SearchIsMembership` | rb_tree/src/lib.rs:59-79 | On an ordered tree, the descent finds `x` if and only if `x` is one of the tree's keys. |
| `RbTree.SearchAfterInsert` | rb_tree/src/lib.rs:32-79 | After inserting `x`, the descent finds `y` if and only if `y` is `x` or the descent found `y` before. It needs no ordering, because `insert` and `contains` take the same path. |
| `RbTree.ReplaceSame` | rb_tree/src/lib.rs:36-37 | Returning at the cursor without writing leaves the tree as it was: putting back the subtree already at the cursor's path gives the same tree. |
| `RbTree.ReplaceExtend` | rb_tree/src/lib.rs:39-40 | Advancing the cursor into an existing child extends its path by one step. Writing at the longer path is the same as filling that child slot of the node at the shorter path. |
| `RbTree.Insert` | rb_tree/src/lib.rs:32-54 | The loop's result is `Inserted(t, x)`. Its key set is the old one plus `x`, and ordering is preserved. When `x` is found on the way down, the tree is returned unchanged. Otherwise the result has exactly one more node, holding `x`, and differs from `t` only by a new leaf in a child slot that was empty. |
| `RbTree.Contains` | rb_tree/src/lib.rs:59-79 | The loop returns the reference descent's answer. On an ordered tree that answer is true exactly when `x` is a key. Only the cursor moves; the tree is never written. |
| `RbTreeScenarios.SingleNode` | rb_tree/src/lib.rs:86-91 | `new(1)` holds the key 1. |
| `RbTreeScenarios.StaticTreeShape` | rb_tree/src/lib.rs:93-112 | The builder chain puts 2, 5, 7, 10, 20 and 25 where the test expects them. The resulting tree happens to be ordered. |
| `RbTreeScenarios.InsertRunStart` | rb_tree/src/lib.rs:136-140 | Inserting 5, 0 and 6 into `new(1)` gives an ordered tree with keys {0, 1, 5, 6}. |
| `RbTreeScenarios.InsertRun` | rb_tree/src/lib.rs:136-142 | Inserting 10 and 7 next gives an ordered tree with keys {0, 1, 5, 6, 7, 10}, so `contains` finds every inserted key. |

## Left out

- Red-black colouring, rotations, insert and delete fix-ups, black-height and the height bound. The crate does not implement any of them; line 1 of `rb_tree/src/lib.rs` marks them as future work.
- `remove`: its signature is commented out and it has no body (rb_tree/src/lib.rs:56-57).
- Keys of any `PartialOrd` type. The model fixes keys to `int`, so it does not cover types without a total order, such as floats with NaN.
- `Box` allocation and Rust ownership and borrowing. `insert` on `&mut self` is modelled as a method returning the updated tree value, so update in place is not captured as such. Since every subtree has exactly one owner, this loses no aliasing behaviour.
- `contains` takes `&mut self` but never writes. It is modelled as a method that takes the tree by value, so it cannot change it.
- The `#[cfg(test)]` module itself (rb_tree/src/lib.rs:82-150). Its scenarios are restated in `rb_tree_scenarios.dfy`.
- The builders `WithLeft` and `WithRight` make no claim that their result is ordered, because the source does not check ordering. Lookup correctness (`SearchIsMembership`) therefore takes `Ordered` as a precondition.
