/**
 * The binary search tree of the `rb_tree` crate (rb_tree/src/lib.rs).
 *
 * A tree is never empty: its root is always a real node holding one key and
 * two optional children. The Rust structure is generic over a `PartialOrd`
 * key; this model fixes the key type to `int`, so that the source's chain
 * "equal, else less, else greater" is a total three-way comparison.
 *
 * Boxed children are owned exclusively by their parent, so a tree is a value:
 * `insert(&mut self, x)` is modelled as a method that returns the updated
 * tree, and its mutable cursor as a path of directions into that tree.
 */
module RbTree {

  datatype Option<T> = None | Some(value: T)

  /** One node and the subtrees it owns (`BinaryTree<T>`). */
  datatype BinaryTree = Node(data: int, left: Option<BinaryTree>, right: Option<BinaryTree>)

  /** Which child slot a step of a descent takes. */
  datatype Dir = Left | Right

  // ---------------------------------------------------------------------------
  // Abstract views of a tree
  // ---------------------------------------------------------------------------

  /** The set of keys stored anywhere in `t`. */
  ghost function Keys(t: BinaryTree): set<int>
  {
    {t.data} + KeysOf(t.left) + KeysOf(t.right)
  }

  /** The keys of an optional subtree; none for an absent child. */
  ghost function KeysOf(o: Option<BinaryTree>): set<int>
  {
    if o.Some? then Keys(o.value) else {}
  }

  /** The keys of `t` counted with multiplicity: one entry per node. */
  ghost function Bag(t: BinaryTree): multiset<int>
  {
    multiset{t.data} + BagOf(t.left) + BagOf(t.right)
  }

  /** The keys of an optional subtree, with multiplicity. */
  ghost function BagOf(o: Option<BinaryTree>): multiset<int>
  {
    if o.Some? then Bag(o.value) else multiset{}
  }

  /**
   * The binary-search-tree ordering: every key in a left subtree is smaller
   * than its node's key, every key in a right subtree is greater.
   */
  ghost predicate Ordered(t: BinaryTree)
  {
    && (t.left.Some? ==>
          Ordered(t.left.value) && forall k :: k in Keys(t.left.value) ==> k < t.data)
    && (t.right.Some? ==>
          Ordered(t.right.value) && forall k :: k in Keys(t.right.value) ==> t.data < k)
  }

  // ---------------------------------------------------------------------------
  // Construction: `new`, `left`, `right`
  // ---------------------------------------------------------------------------

  /** `BinaryTree::new`: a single node holding `x`, both children absent. */
  function New(x: int): (r: BinaryTree)
    ensures r.data == x && r.left == None && r.right == None
    ensures Keys(r) == {x} && Bag(r) == multiset{x}
    ensures Ordered(r)
    ensures forall y :: Search(r, y) <==> y == x
  {
    Node(x, None, None)
  }

  /**
   * The `left` builder: `n` becomes the left child, replacing any previous
   * one; the key and the right child stay. Lookups of keys below the node's
   * key now go into `n`, all other lookups behave as before.
   */
  function WithLeft(t: BinaryTree, n: BinaryTree): (r: BinaryTree)
    ensures r.data == t.data && r.left == Some(n) && r.right == t.right
    ensures Keys(r) == {t.data} + Keys(n) + KeysOf(t.right)
    ensures forall y :: y < t.data ==> (Search(r, y) <==> Search(n, y))
    ensures forall y :: t.data <= y ==> (Search(r, y) <==> Search(t, y))
  {
    t.(left := Some(n))
  }

  /**
   * The `right` builder: `n` becomes the right child, replacing any previous
   * one; the key and the left child stay. Lookups of keys above the node's
   * key now go into `n`, all other lookups behave as before.
   */
  function WithRight(t: BinaryTree, n: BinaryTree): (r: BinaryTree)
    ensures r.data == t.data && r.right == Some(n) && r.left == t.left
    ensures Keys(r) == {t.data} + Keys(n) + KeysOf(t.left)
    ensures forall y :: t.data < y ==> (Search(r, y) <==> Search(n, y))
    ensures forall y :: y <= t.data ==> (Search(r, y) <==> Search(t, y))
  {
    t.(right := Some(n))
  }

  // ---------------------------------------------------------------------------
  // Reference definitions of `contains` and `insert`
  // ---------------------------------------------------------------------------

  /**
   * The answer of the binary-search descent: stop with true on an equal key,
   * go right when the node's key is smaller, left otherwise, and stop with
   * false at an absent child. A key it finds is always stored in the tree.
   */
  function Search(t: BinaryTree, x: int): (found: bool)
    ensures found ==> x in Keys(t)
  {
    if t.data == x then true
    else if t.data < x then
      match t.right
      case None => false
      case Some(r) => Search(r, x)
    else
      match t.left
      case None => false
      case Some(l) => Search(l, x)
  }

  /**
   * The tree after inserting `x`: the descent of `Search`, ending either at a
   * node holding `x` (nothing changes) or at an absent child, where a new leaf
   * is attached. The key set grows by exactly `x` and the new key is found
   * afterwards.
   */
  function Inserted(t: BinaryTree, x: int): (r: BinaryTree)
    ensures Keys(r) == Keys(t) + {x}
    ensures Search(r, x)
  {
    if t.data == x then t
    else if t.data < x then
      match t.right
      case None => WithRight(t, New(x))
      case Some(right) => WithRight(t, Inserted(right, x))
    else
      match t.left
      case None => WithLeft(t, New(x))
      case Some(left) => WithLeft(t, Inserted(left, x))
  }

  // ---------------------------------------------------------------------------
  // Properties of lookup and insertion
  // ---------------------------------------------------------------------------

  /** Replacing a right child by one with an extra `x` adds `x` to the tree. */
  lemma BagGrowsRight(t: BinaryTree, s: BinaryTree, x: int)
    requires Bag(s) == BagOf(t.right) + multiset{x}
    ensures Bag(WithRight(t, s)) == Bag(t) + multiset{x}
  {
  }

  /** Replacing a left child by one with an extra `x` adds `x` to the tree. */
  lemma BagGrowsLeft(t: BinaryTree, s: BinaryTree, x: int)
    requires Bag(s) == BagOf(t.left) + multiset{x}
    ensures Bag(WithLeft(t, s)) == Bag(t) + multiset{x}
  {
  }

  /**
   * Inserting a key the descent does not find grows the multiset of keys by
   * exactly one copy of `x`; where the new node goes is `InsertedAttachesLeaf`.
   */
  lemma {:induction false} InsertedNewBag(t: BinaryTree, x: int)
    requires !Search(t, x)
    ensures Bag(Inserted(t, x)) == Bag(t) + multiset{x}
  {
    if t.data < x {
      if t.right.Some? {
        InsertedNewBag(t.right.value, x);
        BagGrowsRight(t, Inserted(t.right.value, x), x);
      } else {
        BagGrowsRight(t, New(x), x);
      }
    } else {
      if t.left.Some? {
        InsertedNewBag(t.left.value, x);
        BagGrowsLeft(t, Inserted(t.left.value, x), x);
      } else {
        BagGrowsLeft(t, New(x), x);
      }
    }
  }

  /** Insertion preserves the binary-search-tree ordering. */
  lemma {:induction false} InsertedOrdered(t: BinaryTree, x: int)
    requires Ordered(t)
    ensures Ordered(Inserted(t, x))
  {
    if t.data < x && t.right.Some? {
      InsertedOrdered(t.right.value, x);
    } else if x < t.data && t.left.Some? {
      InsertedOrdered(t.left.value, x);
    }
  }

  /** On an ordered tree the descent finds `x` exactly when `x` is a key. */
  lemma {:induction false} SearchIsMembership(t: BinaryTree, x: int)
    requires Ordered(t)
    ensures Search(t, x) <==> x in Keys(t)
  {
    if t.data < x {
      if t.right.Some? { SearchIsMembership(t.right.value, x); }
      assert t.left.Some? ==> x !in Keys(t.left.value);
    } else if x < t.data {
      if t.left.Some? { SearchIsMembership(t.left.value, x); }
      assert t.right.Some? ==> x !in Keys(t.right.value);
    }
  }

  /** Inserting a key that the descent already finds changes nothing. */
  lemma {:induction false} InsertedFoundIsNoop(t: BinaryTree, x: int)
    requires Search(t, x)
    ensures Inserted(t, x) == t
  {
    if t.data < x {
      InsertedFoundIsNoop(t.right.value, x);
    } else if x < t.data {
      InsertedFoundIsNoop(t.left.value, x);
    }
  }

  /** On an ordered tree, inserting a key that is already stored changes nothing. */
  lemma InsertedMemberIsNoop(t: BinaryTree, x: int)
    requires Ordered(t) && x in Keys(t)
    ensures Inserted(t, x) == t
  {
    SearchIsMembership(t, x);
    InsertedFoundIsNoop(t, x);
  }

  /**
   * After inserting `x`, the descent finds `x` and exactly the keys it found
   * before; this holds on every tree, ordered or not, because insertion
   * follows the same path as the lookup.
   */
  lemma {:induction false} SearchAfterInsert(t: BinaryTree, x: int, y: int)
    ensures Search(Inserted(t, x), y) <==> y == x || Search(t, y)
  {
    if t.data == x {
    } else if t.data < x {
      if t.right.Some? { SearchAfterInsert(t.right.value, x, y); }
    } else {
      if t.left.Some? { SearchAfterInsert(t.left.value, x, y); }
    }
  }

  // ---------------------------------------------------------------------------
  // Paths: what a mutable cursor into the tree denotes
  // ---------------------------------------------------------------------------

  function Child(n: BinaryTree, d: Dir): Option<BinaryTree>
  {
    match d
    case Left => n.left
    case Right => n.right
  }

  function WithChild(n: BinaryTree, d: Dir, c: BinaryTree): BinaryTree
  {
    match d
    case Left => WithLeft(n, c)
    case Right => WithRight(n, c)
  }

  /** The subtree reached from `t` by following `p`, if every step exists. */
  function Follow(t: BinaryTree, p: seq<Dir>): Option<BinaryTree>
    decreases |p|
  {
    if p == [] then Some(t)
    else
      match Child(t, p[0])
      case None => None
      case Some(c) => Follow(c, p[1..])
  }

  /** `t` with the subtree at the end of `p` replaced by `s`. */
  function Replace(t: BinaryTree, p: seq<Dir>, s: BinaryTree): BinaryTree
    requires Follow(t, p).Some?
    decreases |p|
  {
    if p == [] then s
    else WithChild(t, p[0], Replace(Child(t, p[0]).value, p[1..], s))
  }

  /** A child slot that is absent at the end of path `p`. */
  ghost predicate EmptySlot(t: BinaryTree, p: seq<Dir>, d: Dir)
  {
    Follow(t, p).Some? && Child(Follow(t, p).value, d).None?
  }

  /** Putting back the subtree that is already at `p` gives the same tree. */
  lemma {:induction false} ReplaceSame(t: BinaryTree, p: seq<Dir>)
    requires Follow(t, p).Some?
    ensures Replace(t, p, Follow(t, p).value) == t
    decreases |p|
  {
    if p != [] {
      ReplaceSame(Child(t, p[0]).value, p[1..]);
    }
  }

  /**
   * One more step of a descent: following `p + [d]` reaches the `d` child of
   * the node at `p`, and replacing there is replacing that child slot.
   */
  lemma {:induction false} ReplaceExtend(t: BinaryTree, p: seq<Dir>, d: Dir, s: BinaryTree)
    requires Follow(t, p).Some? && Child(Follow(t, p).value, d).Some?
    ensures Follow(t, p + [d]) == Child(Follow(t, p).value, d)
    ensures Replace(t, p + [d], s) == Replace(t, p, WithChild(Follow(t, p).value, d, s))
    decreases |p|
  {
    if p == [] {
      assert p + [d] == [d];
    } else {
      assert (p + [d])[0] == p[0];
      assert (p + [d])[1..] == p[1..] + [d];
      ReplaceExtend(Child(t, p[0]).value, p[1..], d, s);
    }
  }

  /**
   * Inserting a key the descent does not find changes the tree in one place
   * only: a new leaf holding `x` fills a child slot that was empty, and every
   * other node, key and child stays where it was.
   */
  lemma {:induction false} InsertedAttachesLeaf(t: BinaryTree, x: int)
    requires !Search(t, x)
    ensures exists p, d :: EmptySlot(t, p, d) && Inserted(t, x) == Replace(t, p, WithChild(Follow(t, p).value, d, New(x)))
  {
    var d := if t.data < x then Right else Left;
    match Child(t, d)
    case None =>
      assert EmptySlot(t, [], d);
      assert Inserted(t, x) == Replace(t, [], WithChild(t, d, New(x)));
    case Some(c) =>
      InsertedAttachesLeaf(c, x);
      var p, e :| EmptySlot(c, p, e) && Inserted(c, x) == Replace(c, p, WithChild(Follow(c, p).value, e, New(x)));
      var q := [d] + p;
      assert q[0] == d && q[1..] == p;
      assert Follow(t, q) == Follow(c, p);
      assert EmptySlot(t, q, e);
      assert Inserted(t, x) == Replace(t, q, WithChild(Follow(t, q).value, e, New(x)));
  }

  // ---------------------------------------------------------------------------
  // `insert` and `contains`, as the loops the source runs
  // ---------------------------------------------------------------------------

  /**
   * `insert`: a cursor walks down from the root; on an equal key it stops
   * without change, on reaching an absent child slot it writes a new leaf
   * into that slot. The result is `Inserted(t, x)`, and when `x` was not
   * found it differs from `t` only by one leaf in a slot that was empty.
   */
  method Insert(t: BinaryTree, x: int) returns (r: BinaryTree)
    ensures r == Inserted(t, x)
    ensures Keys(r) == Keys(t) + {x}
    ensures Ordered(t) ==> Ordered(r)
    ensures Search(t, x) ==> r == t
    ensures !Search(t, x) ==> Bag(r) == Bag(t) + multiset{x}
    ensures !Search(t, x) ==>
      exists p, d :: EmptySlot(t, p, d) && r == Replace(t, p, WithChild(Follow(t, p).value, d, New(x)))
  {
    if Ordered(t) {
      InsertedOrdered(t, x);
    }
    if Search(t, x) {
      InsertedFoundIsNoop(t, x);
    } else {
      InsertedNewBag(t, x);
    }
    var node := t;
    var path: seq<Dir> := [];
    while true
      invariant Follow(t, path) == Some(node)
      invariant Inserted(t, x) == Replace(t, path, Inserted(node, x))
      invariant Search(t, x) == Search(node, x)
      decreases node
    {
      if node.data == x {
        ReplaceSame(t, path);
        return t;
      } else if node.data < x {
        match node.right {
          case Some(right) =>
            ReplaceExtend(t, path, Right, Inserted(right, x));
            node, path := right, path + [Right];
          case None =>
            r := Replace(t, path, WithRight(node, New(x)));
            assert EmptySlot(t, path, Right);
            return;
        }
      } else {
        match node.left {
          case Some(left) =>
            ReplaceExtend(t, path, Left, Inserted(left, x));
            node, path := left, path + [Left];
          case None =>
            r := Replace(t, path, WithLeft(node, New(x)));
            assert EmptySlot(t, path, Left);
            return;
        }
      }
    }
  }

  /**
   * `contains`: the same descent with a cursor that only moves; the tree is
   * read, never written. On an ordered tree the answer is membership.
   */
  method Contains(t: BinaryTree, x: int) returns (found: bool)
    ensures found == Search(t, x)
    ensures Ordered(t) ==> (found <==> x in Keys(t))
  {
    if Ordered(t) {
      SearchIsMembership(t, x);
    }
    var node := t;
    while true
      invariant Search(t, x) == Search(node, x)
      decreases node
    {
      if node.data == x {
        return true;
      } else if node.data < x {
        match node.right {
          case Some(right) => node := right;
          case None => return false;
        }
      } else {
        match node.left {
          case Some(left) => node := left;
          case None => return false;
        }
      }
    }
  }
}
