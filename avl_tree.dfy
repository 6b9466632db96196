/**
 * The tree engine of the ordered set: an AVL tree whose nodes carry an identity
 * (the heap cell they live in), a key and a cached height.  The operations are
 * the recursive algorithms of the engine; each takes a subtree and returns the
 * (possibly new) root of the resulting subtree, keeping node identities: a
 * rotation raises an existing node, and erase reuses the minimum node of the
 * right subtree as the replacement root.
 */
module AvlTree {

  /** A subtree: `Nil` is a null pointer; a `Node` is the cell `id` holding `key`
    * with its cached `height`. */
  datatype Tree = Nil | Node(left: Tree, id: nat, key: int, right: Tree, height: int)

  function Max(a: int, b: int): int { if a < b then b else a }

  /** The cached height of a subtree; a null subtree has height 0. */
  function Height(t: Tree): int { if t.Nil? then 0 else t.height }

  /** The balance factor of a node: left height minus right height.  When the
    * children's cached heights are correct it is the difference of their real
    * heights. */
  function Diff(t: Tree): (d: int)
    requires t.Node?
    ensures HeightsOk(t.left) && HeightsOk(t.right) ==> d == Depth(t.left) - Depth(t.right)
  {
    CachedIsReal(t.left);
    CachedIsReal(t.right);
    Height(t.left) - Height(t.right)
  }

  // ---------------------------------------------------------------------------
  // Abstract views of a subtree
  // ---------------------------------------------------------------------------

  /** The keys stored in a subtree. */
  ghost function Keys(t: Tree): set<int>
  {
    match t
    case Nil => {}
    case Node(l, _, k, r, _) => Keys(l) + {k} + Keys(r)
  }

  /** The cells of a subtree. */
  ghost function Ids(t: Tree): set<nat>
  {
    match t
    case Nil => {}
    case Node(l, id, _, r, _) => Ids(l) + {id} + Ids(r)
  }

  /** The (cell, key) pairs of a subtree: which node holds which key. */
  ghost function Entries(t: Tree): set<(nat, int)>
  {
    match t
    case Nil => {}
    case Node(l, id, k, r, _) => Entries(l) + {(id, k)} + Entries(r)
  }

  /** The keys in in-order (left, node, right). */
  ghost function Inorder(t: Tree): seq<int>
  {
    match t
    case Nil => []
    case Node(l, _, k, r, _) => Inorder(l) + [k] + Inorder(r)
  }

  /** The number of nodes of a subtree. */
  ghost function Size(t: Tree): nat
  {
    match t
    case Nil => 0
    case Node(l, _, _, r, _) => Size(l) + 1 + Size(r)
  }

  // ---------------------------------------------------------------------------
  // The invariants
  // ---------------------------------------------------------------------------

  /** Binary-search-tree ordering: left keys below the node's key, right keys above. */
  ghost predicate Ordered(t: Tree)
  {
    match t
    case Nil => true
    case Node(l, _, k, r, _) =>
      (forall x :: x in Keys(l) ==> x < k) &&
      (forall x :: x in Keys(r) ==> k < x) &&
      Ordered(l) && Ordered(r)
  }

  /** Every cached height is one more than the larger child height. */
  ghost predicate HeightsOk(t: Tree)
  {
    match t
    case Nil => true
    case Node(l, _, _, r, h) => h == 1 + Max(Height(l), Height(r)) && HeightsOk(l) && HeightsOk(r)
  }

  /** The AVL balance condition at every node. */
  ghost predicate Balanced(t: Tree)
  {
    match t
    case Nil => true
    case Node(l, _, _, r, _) => -1 <= Diff(t) <= 1 && Balanced(l) && Balanced(r)
  }

  /** No cell occurs twice: the child subtrees are owned exclusively. */
  ghost predicate DistinctIds(t: Tree)
  {
    match t
    case Nil => true
    case Node(l, id, _, r, _) =>
      id !in Ids(l) && id !in Ids(r) && Ids(l) !! Ids(r) && DistinctIds(l) && DistinctIds(r)
  }

  /** Correct cached heights and AVL balance: what the recursive algorithms rely on. */
  ghost predicate AvlShape(t: Tree)
  {
    Balanced(t) && HeightsOk(t)
  }

  /** The full invariant of a tree owned by the set. */
  ghost predicate IsAvl(t: Tree)
  {
    Ordered(t) && Balanced(t) && HeightsOk(t) && DistinctIds(t)
  }

  /** `a` and `b` hold the same nodes with the same keys, in the same order. */
  ghost predicate SameNodes(a: Tree, b: Tree)
  {
    Inorder(a) == Inorder(b) && Entries(a) == Entries(b) && Keys(a) == Keys(b) &&
    Ids(a) == Ids(b) && Size(a) == Size(b)
  }

  // ---------------------------------------------------------------------------
  // update, rotations, rebalance
  // ---------------------------------------------------------------------------

  /** update: recompute the cached height of a node from its children. */
  function Update(t: Tree): (r: Tree)
    requires t.Node?
    ensures r.Node? && r == Node(t.left, t.id, t.key, t.right, r.height)
    ensures HeightsOk(t.left) && HeightsOk(t.right) ==> HeightsOk(r)
  {
    t.(height := 1 + Max(Height(t.left), Height(t.right)))
  }

  /** rotate_right: the left child becomes the root of the subtree; its right
    * subtree moves under the old root; both moved nodes get new heights. */
  function RotateRight(t: Tree): (r: Tree)
    requires t.Node? && t.left.Node?
    ensures r.Node? && r.id == t.left.id && r.right.Node? && r.right.id == t.id
    ensures SameNodes(t, r)
    ensures Ordered(t) ==> Ordered(r)
    ensures DistinctIds(t) ==> DistinctIds(r)
  {
    match t
    case Node(Node(a, lid, lk, b, lh), id, k, c, h) =>
      RotateRightKeeps(a, lid, lk, b, lh, id, k, c, h);
      var u := Update(Node(b, id, k, c, h));
      Update(Node(a, lid, lk, u, lh))
  }

  /** rotate_left: the mirror image of rotate_right. */
  function RotateLeft(t: Tree): (r: Tree)
    requires t.Node? && t.right.Node?
    ensures r.Node? && r.id == t.right.id && r.left.Node? && r.left.id == t.id
    ensures SameNodes(t, r)
    ensures Ordered(t) ==> Ordered(r)
    ensures DistinctIds(t) ==> DistinctIds(r)
  {
    match t
    case Node(a, id, k, Node(b, rid, rk, c, rh), h) =>
      RotateLeftKeeps(a, id, k, b, rid, rk, c, rh, h);
      var u := Update(Node(a, id, k, b, h));
      Update(Node(u, rid, rk, c, rh))
  }

  /** The tree rotate_right builds is ordered and owns its cells exclusively
    * when the rotated tree is and does. */
  lemma RotateRightKeeps(a: Tree, lid: nat, lk: int, b: Tree, lh: int, id: nat, k: int, c: Tree, h: int)
    ensures var t := Node(Node(a, lid, lk, b, lh), id, k, c, h);
            var r := Update(Node(a, lid, lk, Update(Node(b, id, k, c, h)), lh));
            (Ordered(t) ==> Ordered(r)) && (DistinctIds(t) ==> DistinctIds(r))
  {
    var t := Node(Node(a, lid, lk, b, lh), id, k, c, h);
    assert Keys(t.left) == Keys(a) + {lk} + Keys(b) && Ids(t.left) == Ids(a) + {lid} + Ids(b);
    var u := Update(Node(b, id, k, c, h));
    assert Keys(u) == Keys(b) + {k} + Keys(c) && Ids(u) == Ids(b) + {id} + Ids(c);
    if Ordered(t) {
      assert Ordered(t.left);
      assert forall x :: x in Keys(b) ==> lk < x < k;
      assert Ordered(u);
    }
    if DistinctIds(t) {
      assert DistinctIds(t.left);
      assert DistinctIds(u);
    }
  }

  /** The mirror image of RotateRightKeeps. */
  lemma RotateLeftKeeps(a: Tree, id: nat, k: int, b: Tree, rid: nat, rk: int, c: Tree, rh: int, h: int)
    ensures var t := Node(a, id, k, Node(b, rid, rk, c, rh), h);
            var r := Update(Node(Update(Node(a, id, k, b, h)), rid, rk, c, rh));
            (Ordered(t) ==> Ordered(r)) && (DistinctIds(t) ==> DistinctIds(r))
  {
    var t := Node(a, id, k, Node(b, rid, rk, c, rh), h);
    assert Keys(t.right) == Keys(b) + {rk} + Keys(c) && Ids(t.right) == Ids(b) + {rid} + Ids(c);
    var u := Update(Node(a, id, k, b, h));
    assert Keys(u) == Keys(a) + {k} + Keys(b) && Ids(u) == Ids(a) + {id} + Ids(b);
    if Ordered(t) {
      assert Ordered(t.right);
      assert forall x :: x in Keys(b) ==> k < x < rk;
      assert Ordered(u);
    }
    if DistinctIds(t) {
      assert DistinctIds(t.right);
      assert DistinctIds(u);
    }
  }

  /** rotate_left_big: a right rotation of the right child, then a left rotation;
    * the right child's left child ends up as the root. */
  function RotateLeftBig(t: Tree): (r: Tree)
    requires t.Node? && t.right.Node? && t.right.left.Node?
    ensures r.Node? && r.id == t.right.left.id
    ensures SameNodes(t, r)
    ensures Ordered(t) ==> Ordered(r)
    ensures DistinctIds(t) ==> DistinctIds(r)
  {
    RotateLeft(t.(right := RotateRight(t.right)))
  }

  /** rotate_right_big: the mirror image of rotate_left_big. */
  function RotateRightBig(t: Tree): (r: Tree)
    requires t.Node? && t.left.Node? && t.left.right.Node?
    ensures r.Node? && r.id == t.left.right.id
    ensures SameNodes(t, r)
    ensures Ordered(t) ==> Ordered(r)
    ensures DistinctIds(t) ==> DistinctIds(r)
  {
    RotateRight(t.(left := RotateLeft(t.left)))
  }

  /** The pointers rebalance dereferences exist: the heavy child, and for a double
    * rotation the heavy child's inner child. */
  ghost predicate CanRebalance(t: Tree)
  {
    t.Node? &&
    (-2 < Diff(t) < 2 ||
     (Diff(t) == -2 && t.right.Node? && (Diff(t.right) <= 0 || t.right.left.Node?)) ||
     (Diff(t) != -2 && t.left.Node? && (Diff(t.left) >= 0 || t.left.right.Node?)))
  }

  /** rebalance: no change when |diff| < 2; a right-heavy node is rotated left (a
    * double rotation when its right child is left-heavy), any other unbalanced
    * node is rotated right (a double rotation when its left child is right-heavy). */
  function Rebalance(t: Tree): (r: Tree)
    requires CanRebalance(t)
    ensures r.Node?
    ensures SameNodes(t, r)
    ensures Ordered(t) ==> Ordered(r)
    ensures DistinctIds(t) ==> DistinctIds(r)
  {
    if -2 < Diff(t) < 2 then t
    else if Diff(t) == -2 then
      if Diff(t.right) <= 0 then RotateLeft(t) else RotateLeftBig(t)
    else
      if Diff(t.left) >= 0 then RotateRight(t) else RotateRightBig(t)
  }

  /** Cached heights that are correct are never negative. */
  lemma {:induction false} HeightNonNegative(t: Tree)
    requires HeightsOk(t)
    ensures Height(t) >= 0
  {
    if t.Node? {
      HeightNonNegative(t.left);
    }
  }

  /** The real height of a subtree: the number of nodes on its longest downward
    * path. */
  ghost function Depth(t: Tree): nat
  {
    match t
    case Nil => 0
    case Node(l, _, _, r, _) => 1 + Max(Depth(l), Depth(r))
  }

  /** Correct cached heights are the real heights, so AvlShape is the AVL
    * balance condition on real heights. */
  lemma {:induction false} CachedIsReal(t: Tree)
    ensures HeightsOk(t) ==> Height(t) == Depth(t)
  {
    if t.Node? {
      CachedIsReal(t.left);
      CachedIsReal(t.right);
    }
  }

  /** A single left rotation balances a node whose right subtree is two higher
    * and not left-heavy. */
  lemma RotateLeftBalances(t: Tree)
    requires t.Node? && t.right.Node? && HeightsOk(t) && Balanced(t.left) && Balanced(t.right)
    requires Diff(t) == -2 && Diff(t.right) <= 0
    ensures AvlShape(RotateLeft(t)) && Height(t) - 1 <= Height(RotateLeft(t)) <= Height(t)
  {
    var Node(a, id, k, Node(b, rid, rk, c, rh), h) := t;
    var u := Update(Node(a, id, k, b, h));
    assert Balanced(u);
    var r := Update(Node(u, rid, rk, c, rh));
    assert r == RotateLeft(t);
    assert Balanced(r);
  }

  /** The mirror image of RotateLeftBalances. */
  lemma RotateRightBalances(t: Tree)
    requires t.Node? && t.left.Node? && HeightsOk(t) && Balanced(t.left) && Balanced(t.right)
    requires Diff(t) == 2 && Diff(t.left) >= 0
    ensures AvlShape(RotateRight(t)) && Height(t) - 1 <= Height(RotateRight(t)) <= Height(t)
  {
    var Node(Node(a, lid, lk, b, lh), id, k, c, h) := t;
    var u := Update(Node(b, id, k, c, h));
    assert Balanced(u);
    var r := Update(Node(a, lid, lk, u, lh));
    assert r == RotateRight(t);
    assert Balanced(r);
  }

  /** A double rotation balances a node whose right subtree is two higher and
    * left-heavy; the result is one lower than the node. */
  lemma RotateLeftBigBalances(t: Tree)
    requires t.Node? && t.right.Node? && HeightsOk(t) && Balanced(t.left) && Balanced(t.right)
    requires Diff(t) == -2 && Diff(t.right) > 0
    ensures t.right.left.Node?
    ensures AvlShape(RotateLeftBig(t)) && Height(RotateLeftBig(t)) == Height(t) - 1
  {
    HeightNonNegative(t.right.right);
    var Node(a, id, k, Node(Node(b1, mid, mk, b2, mh), rid, rk, c, rh), h) := t;
    var x := Height(a);
    assert rh == x + 2 && Height(c) == x && mh == x + 1;
    assert HeightsOk(t.right.left) && Balanced(t.right.left);
    assert x - 1 <= Height(b1) <= x && x - 1 <= Height(b2) <= x;
    var v := Update(Node(b2, rid, rk, c, rh));
    var u := Update(Node(a, id, k, b1, h));
    assert Balanced(u) && Balanced(v);
    assert Height(u) == x + 1 && Height(v) == x + 1;
    var r := Update(Node(u, mid, mk, v, mh));
    assert Height(r) == x + 2 && Diff(r) == 0;
    assert Balanced(r);
    RotateLeftBigIs(a, id, k, b1, mid, mk, b2, mh, rid, rk, c, rh, h);
  }

  /** The tree rotate_left_big builds, written out. */
  lemma RotateLeftBigIs(a: Tree, id: nat, k: int, b1: Tree, mid: nat, mk: int, b2: Tree, mh: int,
                        rid: nat, rk: int, c: Tree, rh: int, h: int)
    ensures RotateLeftBig(Node(a, id, k, Node(Node(b1, mid, mk, b2, mh), rid, rk, c, rh), h)) ==
            Update(Node(Update(Node(a, id, k, b1, h)), mid, mk, Update(Node(b2, rid, rk, c, rh)), mh))
  {
  }

  /** The mirror image of RotateLeftBigBalances. */
  lemma RotateRightBigBalances(t: Tree)
    requires t.Node? && t.left.Node? && HeightsOk(t) && Balanced(t.left) && Balanced(t.right)
    requires Diff(t) == 2 && Diff(t.left) < 0
    ensures t.left.right.Node?
    ensures AvlShape(RotateRightBig(t)) && Height(RotateRightBig(t)) == Height(t) - 1
  {
    HeightNonNegative(t.left.left);
    var Node(Node(a, lid, lk, Node(b1, mid, mk, b2, mh), lh), id, k, c, h) := t;
    var x := Height(c);
    assert lh == x + 2 && Height(a) == x && mh == x + 1;
    assert HeightsOk(t.left.right) && Balanced(t.left.right);
    assert x - 1 <= Height(b1) <= x && x - 1 <= Height(b2) <= x;
    var u := Update(Node(a, lid, lk, b1, lh));
    var v := Update(Node(b2, id, k, c, h));
    assert Balanced(u) && Balanced(v);
    assert Height(u) == x + 1 && Height(v) == x + 1;
    var r := Update(Node(u, mid, mk, v, mh));
    assert Height(r) == x + 2 && Diff(r) == 0;
    assert Balanced(r);
    RotateRightBigIs(a, lid, lk, b1, mid, mk, b2, mh, lh, id, k, c, h);
  }

  /** The tree rotate_right_big builds, written out. */
  lemma RotateRightBigIs(a: Tree, lid: nat, lk: int, b1: Tree, mid: nat, mk: int, b2: Tree, mh: int,
                         lh: int, id: nat, k: int, c: Tree, h: int)
    ensures RotateRightBig(Node(Node(a, lid, lk, Node(b1, mid, mk, b2, mh), lh), id, k, c, h)) ==
            Update(Node(Update(Node(a, lid, lk, b1, lh)), mid, mk, Update(Node(b2, id, k, c, h)), mh))
  {
  }

  /** When both children are AVL trees with correct heights, the node's own
    * height is correct and its balance factor is within 2, rebalance is defined
    * and returns an AVL tree with correct heights, at most one lower. */
  lemma RebalanceRestores(t: Tree)
    requires t.Node? && HeightsOk(t) && Balanced(t.left) && Balanced(t.right)
    requires -2 <= Diff(t) <= 2
    ensures CanRebalance(t)
    ensures AvlShape(Rebalance(t))
    ensures Height(t) - 1 <= Height(Rebalance(t)) <= Height(t)
    ensures -2 < Diff(t) < 2 ==> Rebalance(t) == t
  {
    HeightNonNegative(t.left);
    HeightNonNegative(t.right);
    if -2 < Diff(t) < 2 {
      assert Rebalance(t) == t;
    } else if Diff(t) == -2 {
      if Diff(t.right) <= 0 {
        assert Rebalance(t) == RotateLeft(t);
        RotateLeftBalances(t);
      } else {
        RotateLeftBigBalances(t);
        assert Rebalance(t) == RotateLeftBig(t);
      }
    } else {
      if Diff(t.left) >= 0 {
        assert Rebalance(t) == RotateRight(t);
        RotateRightBalances(t);
      } else {
        RotateRightBigBalances(t);
        assert Rebalance(t) == RotateRightBig(t);
      }
    }
  }

  // ---------------------------------------------------------------------------
  // find_min, remove_min, insert, erase
  // ---------------------------------------------------------------------------

  /** find_min: the leftmost node of a non-empty subtree; in an ordered tree it
    * holds the smallest key. */
  function FindMin(t: Tree): (r: Tree)
    requires t.Node?
    ensures r.Node? && r.left.Nil? && (r.id, r.key) in Entries(t)
    ensures r.id in Ids(t) && r.key in Keys(t)
    ensures Ordered(t) ==> forall x :: x in Keys(t) ==> r.key <= x
    decreases t
  {
    if t.left.Node? then FindMin(t.left) else t
  }

  /** The rightmost node of a non-empty subtree; in an ordered tree it holds the
    * largest key.  The iterator reaches it by walking right pointers. */
  ghost function FindMax(t: Tree): (r: Tree)
    requires t.Node?
    ensures r.Node? && r.right.Nil? && (r.id, r.key) in Entries(t)
    ensures r.id in Ids(t) && r.key in Keys(t)
    ensures Ordered(t) ==> forall x :: x in Keys(t) ==> x <= r.key
    decreases t
  {
    if t.right.Node? then FindMax(t.right) else t
  }

  /** remove_min: unlink the leftmost node, splicing in its right subtree, and
    * rebalance every node on the way back up. */
  function RemoveMin(t: Tree): (r: Tree)
    requires t.Node? && AvlShape(t)
    ensures AvlShape(r) && Height(t) - 1 <= Height(r) <= Height(t)
    decreases t
  {
    HeightNonNegative(t.left);
    HeightNonNegative(t.right);
    if t.left.Nil? then t.right
    else
      var n := Update(t.(left := RemoveMin(t.left)));
      RebalanceRestores(n);
      Rebalance(n)
  }

  /** The node allocated by insert, with the height of a leaf. */
  function NewNode(id: nat, key: int): (r: Tree)
    ensures AvlShape(r) && IsAvl(r) && Entries(r) == {(id, key)} && Keys(r) == {key} && Ids(r) == {id}
  {
    Node(Nil, id, key, Nil, 1)
  }

  /** insert: descend to the null position of `key` and hang a new node in `cell`
    * there, then update and rebalance every node on the way back up; a key that
    * is neither less nor greater than a node's key is already present and
    * nothing changes from there on. */
  function Insert(t: Tree, key: int, cell: nat): (r: Tree)
    requires AvlShape(t)
    ensures r.Node? && AvlShape(r) && Height(t) <= Height(r) <= Height(t) + 1
    decreases t
  {
    match t
    case Nil => NewNode(cell, key)
    case Node(l, id, k, rt, h) =>
      HeightNonNegative(l);
      HeightNonNegative(rt);
      if key < k then
        var n := Update(Node(Insert(l, key, cell), id, k, rt, h));
        RebalanceRestores(n);
        Rebalance(n)
      else if k < key then
        var n := Update(Node(l, id, k, Insert(rt, key, cell), h));
        RebalanceRestores(n);
        Rebalance(n)
      else
        t
  }

  /** erase: descend to the node holding `key` and unlink it; every node on the
    * way back up is updated and rebalanced.  An absent key reaches null. */
  function Erase(t: Tree, key: int): (r: Tree)
    requires AvlShape(t)
    ensures AvlShape(r) && Height(t) - 1 <= Height(r) <= Height(t)
    decreases t
  {
    match t
    case Nil => Nil
    case Node(l, id, k, rt, h) =>
      HeightNonNegative(l);
      HeightNonNegative(rt);
      if key < k then
        var n := Update(Node(Erase(l, key), id, k, rt, h));
        RebalanceRestores(n);
        Rebalance(n)
      else if k < key then
        var n := Update(Node(l, id, k, Erase(rt, key), h));
        RebalanceRestores(n);
        Rebalance(n)
      else
        Unlink(t)
  }

  /** The matching node of erase leaves the tree: without a right child its left
    * child takes its place; otherwise the minimum node v of the right subtree is
    * unlinked by remove_min and takes its place (the cell v itself, with its
    * key), inheriting both subtrees, and is updated and rebalanced. */
  function Unlink(t: Tree): (r: Tree)
    requires t.Node? && AvlShape(t)
    ensures AvlShape(r) && Height(t) - 1 <= Height(r) <= Height(t)
  {
    HeightNonNegative(t.left);
    HeightNonNegative(t.right);
    if t.right.Nil? then
      t.left
    else
      var v := FindMin(t.right);
      var n := Update(Node(t.left, v.id, v.key, RemoveMin(t.right), v.height));
      RebalanceRestores(n);
      Rebalance(n)
  }

  // ---------------------------------------------------------------------------
  // find
  // ---------------------------------------------------------------------------

  /** find: descend from the root comparing keys; the node holding `key`, or
    * null when the descent falls off the tree. */
  function Find(t: Tree, key: int): (r: Tree)
    ensures r.Node? ==> r.key == key && (r.id, r.key) in Entries(t) && r.id in Ids(t)
    ensures Ordered(t) ==> (r.Node? <==> key in Keys(t))
  {
    match t
    case Nil => Nil
    case Node(l, _, k, rt, _) =>
      if key < k then Find(l, key)
      else if k < key then Find(rt, key)
      else t
  }

  // ---------------------------------------------------------------------------
  // What the engine does to the stored keys and cells
  // ---------------------------------------------------------------------------

  /** `b` holds the nodes of `a` and one more: the cell `cell` holding `key`. */
  ghost predicate Added(a: Tree, b: Tree, cell: nat, key: int)
  {
    Entries(b) == Entries(a) + {(cell, key)} && Keys(b) == Keys(a) + {key} &&
    Ids(b) == Ids(a) + {cell} && Size(b) == Size(a) + 1
  }

  /** `b` holds the nodes of `a` but one: the cell `cell` holding `key` is
    * taken out.  Adding it back gives `a`. */
  ghost predicate Removed(b: Tree, a: Tree, cell: nat, key: int)
  {
    Added(b, a, cell, key)
  }

  /** Growing the left subtree of a node by one node grows the node by it. */
  lemma LeftGrown(l: Tree, l': Tree, id: nat, k: int, rt: Tree, h: int, h': int, cell: nat, key: int)
    requires Added(l, l', cell, key)
    ensures Added(Node(l, id, k, rt, h), Node(l', id, k, rt, h'), cell, key)
  {
  }

  /** The mirror image of LeftGrown. */
  lemma RightGrown(l: Tree, id: nat, k: int, rt: Tree, rt': Tree, h: int, h': int, cell: nat, key: int)
    requires Added(rt, rt', cell, key)
    ensures Added(Node(l, id, k, rt, h), Node(l, id, k, rt', h'), cell, key)
  {
  }

  /** With correct heights, update changes nothing. */
  lemma UpdateKeepsCorrect(t: Tree)
    requires t.Node? && HeightsOk(t)
    ensures Update(t) == t
  {
  }

  // One level of each recursive algorithm: the updated node can be rebalanced,
  // and rebalancing it gives the result.

  /** One level of remove_min. */
  lemma RemoveMinStep(t: Tree)
    requires t.Node? && AvlShape(t) && t.left.Node?
    ensures var n := Update(Node(RemoveMin(t.left), t.id, t.key, t.right, t.height));
            CanRebalance(n) && RemoveMin(t) == Rebalance(n)
  {
    HeightNonNegative(t.left);
    HeightNonNegative(t.right);
    RebalanceRestores(Update(Node(RemoveMin(t.left), t.id, t.key, t.right, t.height)));
  }

  /** One level of insert into the left subtree. */
  lemma InsertLeftStep(t: Tree, key: int, cell: nat)
    requires AvlShape(t) && t.Node? && key < t.key
    ensures var n := Update(Node(Insert(t.left, key, cell), t.id, t.key, t.right, t.height));
            CanRebalance(n) && Insert(t, key, cell) == Rebalance(n)
  {
    HeightNonNegative(t.left);
    HeightNonNegative(t.right);
    RebalanceRestores(Update(Node(Insert(t.left, key, cell), t.id, t.key, t.right, t.height)));
  }

  /** One level of insert into the right subtree. */
  lemma InsertRightStep(t: Tree, key: int, cell: nat)
    requires AvlShape(t) && t.Node? && t.key < key
    ensures var n := Update(Node(t.left, t.id, t.key, Insert(t.right, key, cell), t.height));
            CanRebalance(n) && Insert(t, key, cell) == Rebalance(n)
  {
    HeightNonNegative(t.left);
    HeightNonNegative(t.right);
    RebalanceRestores(Update(Node(t.left, t.id, t.key, Insert(t.right, key, cell), t.height)));
  }

  /** One level of erase into the left subtree. */
  lemma EraseLeftStep(t: Tree, key: int)
    requires AvlShape(t) && t.Node? && key < t.key
    ensures var n := Update(Node(Erase(t.left, key), t.id, t.key, t.right, t.height));
            CanRebalance(n) && Erase(t, key) == Rebalance(n)
  {
    HeightNonNegative(t.left);
    HeightNonNegative(t.right);
    RebalanceRestores(Update(Node(Erase(t.left, key), t.id, t.key, t.right, t.height)));
  }

  /** One level of erase into the right subtree. */
  lemma EraseRightStep(t: Tree, key: int)
    requires AvlShape(t) && t.Node? && t.key < key
    ensures var n := Update(Node(t.left, t.id, t.key, Erase(t.right, key), t.height));
            CanRebalance(n) && Erase(t, key) == Rebalance(n)
  {
    HeightNonNegative(t.left);
    HeightNonNegative(t.right);
    RebalanceRestores(Update(Node(t.left, t.id, t.key, Erase(t.right, key), t.height)));
  }

  /** Unlinking a node with a right child. */
  lemma UnlinkStep(t: Tree)
    requires AvlShape(t) && t.Node? && t.right.Node?
    ensures var v := FindMin(t.right);
            var n := Update(Node(t.left, v.id, v.key, RemoveMin(t.right), v.height));
            CanRebalance(n) && Unlink(t) == Rebalance(n)
  {
    HeightNonNegative(t.left);
    HeightNonNegative(t.right);
    var v := FindMin(t.right);
    RebalanceRestores(Update(Node(t.left, v.id, v.key, RemoveMin(t.right), v.height)));
  }

  // remove_min

  /** remove_min takes out exactly the minimum node. */
  lemma {:induction false} RemoveMinEntries(t: Tree)
    requires t.Node? && AvlShape(t)
    ensures Removed(RemoveMin(t), t, FindMin(t).id, FindMin(t).key)
  {
    if t.left.Node? {
      var l' := RemoveMin(t.left);
      RemoveMinEntries(t.left);
      RemoveMinStep(t);
      var n := Update(Node(l', t.id, t.key, t.right, t.height));
      LeftGrown(l', t.left, t.id, t.key, t.right, n.height, t.height, FindMin(t).id, FindMin(t).key);
    }
  }

  /** One level of remove_min keeps the ordering and the ownership of cells, and
    * the minimum stays below everything left, its cell outside. */
  lemma RemoveMinLeftKeeps(t: Tree, l': Tree, m: Tree)
    requires t.Node? && Ordered(t) && DistinctIds(t) && m.Node?
    requires Ordered(l') && DistinctIds(l') && Added(l', t.left, m.id, m.key)
    requires m.id !in Ids(l') && forall x :: x in Keys(l') ==> m.key < x
    ensures var n := Update(Node(l', t.id, t.key, t.right, t.height));
            Ordered(n) && DistinctIds(n) && m.id !in Ids(n) && forall x :: x in Keys(n) ==> m.key < x
  {
    assert t.id in Ids(t) && m.key in Keys(t.left) && m.id in Ids(t.left);
  }

  /** remove_min keeps the ordering and the ownership of cells; what remains
    * lies above the minimum and no longer holds its cell. */
  lemma {:induction false} RemoveMinKeeps(t: Tree)
    requires t.Node? && IsAvl(t)
    ensures var r := RemoveMin(t); var m := FindMin(t);
            Ordered(r) && DistinctIds(r) && m.id !in Ids(r) && forall x :: x in Keys(r) ==> m.key < x
  {
    if t.left.Node? {
      var l' := RemoveMin(t.left);
      RemoveMinKeeps(t.left);
      RemoveMinEntries(t.left);
      RemoveMinLeftKeeps(t, l', FindMin(t));
      RemoveMinStep(t);
    }
  }

  // insert

  /** Inserting an absent key adds exactly one node, the new cell holding `key`. */
  lemma {:induction false} InsertEntries(t: Tree, key: int, cell: nat)
    requires AvlShape(t) && key !in Keys(t)
    ensures Added(t, Insert(t, key, cell), cell, key)
  {
    match t
    case Nil =>
    case Node(l, id, k, rt, h) =>
      if key < k {
        var l' := Insert(l, key, cell);
        InsertEntries(l, key, cell);
        InsertLeftStep(t, key, cell);
        var n := Update(Node(l', id, k, rt, h));
        LeftGrown(l, l', id, k, rt, h, n.height, cell, key);
      } else {
        var rt' := Insert(rt, key, cell);
        InsertEntries(rt, key, cell);
        InsertRightStep(t, key, cell);
        var n := Update(Node(l, id, k, rt', h));
        RightGrown(l, id, k, rt, rt', h, n.height, cell, key);
      }
  }

  /** Inserting a key already present changes nothing: no node is created, and
    * the links, updates and rebalances done on the way back up leave every node
    * as it was. */
  lemma {:induction false} InsertPresent(t: Tree, key: int, cell: nat)
    requires IsAvl(t) && key in Keys(t)
    ensures Insert(t, key, cell) == t
  {
    var Node(l, id, k, rt, h) := t;
    if key < k {
      InsertPresent(l, key, cell);
      InsertLeftStep(t, key, cell);
      UpdateKeepsCorrect(t);
    } else if k < key {
      InsertPresent(rt, key, cell);
      InsertRightStep(t, key, cell);
      UpdateKeepsCorrect(t);
    }
  }

  /** One level of insert into the left subtree keeps the ordering and the
    * ownership of cells, before rebalancing. */
  lemma InsertLeftKeeps(t: Tree, l': Tree, key: int, cell: nat)
    requires t.Node? && Ordered(t) && DistinctIds(t) && key < t.key && cell !in Ids(t)
    requires Ordered(l') && DistinctIds(l') && Added(t.left, l', cell, key)
    ensures var n := Update(Node(l', t.id, t.key, t.right, t.height));
            Ordered(n) && DistinctIds(n)
  {
    assert t.id in Ids(t);
  }

  /** The mirror image of InsertLeftKeeps. */
  lemma InsertRightKeeps(t: Tree, r': Tree, key: int, cell: nat)
    requires t.Node? && Ordered(t) && DistinctIds(t) && t.key < key && cell !in Ids(t)
    requires Ordered(r') && DistinctIds(r') && Added(t.right, r', cell, key)
    ensures var n := Update(Node(t.left, t.id, t.key, r', t.height));
            Ordered(n) && DistinctIds(n)
  {
    assert t.id in Ids(t);
  }

  /** Inserting an absent key into a fresh cell keeps the ordering and the
    * ownership of cells. */
  lemma {:induction false} InsertKeeps(t: Tree, key: int, cell: nat)
    requires IsAvl(t) && key !in Keys(t) && cell !in Ids(t)
    ensures Ordered(Insert(t, key, cell)) && DistinctIds(Insert(t, key, cell))
  {
    if t.Node? {
      assert t.key in Keys(t);
      if key < t.key {
        InsertKeeps(t.left, key, cell);
        InsertEntries(t.left, key, cell);
        InsertLeftKeeps(t, Insert(t.left, key, cell), key, cell);
        InsertLeftStep(t, key, cell);
      } else {
        InsertKeeps(t.right, key, cell);
        InsertEntries(t.right, key, cell);
        InsertRightKeeps(t, Insert(t.right, key, cell), key, cell);
        InsertRightStep(t, key, cell);
      }
    }
  }

  /** insert adds `key` to the stored keys and keeps the invariant; a new key
    * gets the new cell and nothing else changes, a key already present leaves
    * the tree as it was. */
  lemma InsertContents(t: Tree, key: int, cell: nat)
    requires IsAvl(t) && cell !in Ids(t)
    ensures var r := Insert(t, key, cell);
            IsAvl(r) && Keys(r) == Keys(t) + {key} &&
            (key in Keys(t) ==> r == t) &&
            (key !in Keys(t) ==> Added(t, r, cell, key))
  {
    if key in Keys(t) {
      InsertPresent(t, key, cell);
    } else {
      InsertEntries(t, key, cell);
      InsertKeeps(t, key, cell);
    }
  }

  // erase

  /** Erasing an absent key reaches null and leaves the tree as it was. */
  lemma {:induction false} EraseAbsent(t: Tree, key: int)
    requires IsAvl(t) && key !in Keys(t)
    ensures Erase(t, key) == t
  {
    if t.Node? {
      assert t.key in Keys(t);
      if key < t.key {
        EraseAbsent(t.left, key);
        EraseLeftStep(t, key);
      } else {
        EraseAbsent(t.right, key);
        EraseRightStep(t, key);
      }
      UpdateKeepsCorrect(t);
    }
  }

  /** The views of the replacement node erase builds from the left subtree, the
    * minimum (vid, vkey) of the right subtree rt and what remove_min left of
    * it: the erased node (id, k) is the only one missing. */
  lemma ReplacementEntries(l: Tree, id: nat, k: int, rt: Tree, h: int, vid: nat, vkey: int, rest: Tree, h': int)
    requires Added(rest, rt, vid, vkey)
    ensures Added(Node(l, vid, vkey, rest, h'), Node(l, id, k, rt, h), id, k)
  {
  }

  /** Erasing a present key takes out exactly the node find reaches: every other
    * node keeps its cell and its key. */
  lemma {:induction false} EraseEntries(t: Tree, key: int)
    requires IsAvl(t) && key in Keys(t)
    ensures Removed(Erase(t, key), t, Find(t, key).id, key)
  {
    var Node(l, id, k, rt, h) := t;
    if key < k {
      var l' := Erase(l, key);
      EraseEntries(l, key);
      EraseLeftStep(t, key);
      var n := Update(Node(l', id, k, rt, h));
      LeftGrown(l', l, id, k, rt, n.height, h, Find(t, key).id, key);
    } else if k < key {
      var rt' := Erase(rt, key);
      EraseEntries(rt, key);
      EraseRightStep(t, key);
      var n := Update(Node(l, id, k, rt', h));
      RightGrown(l, id, k, rt', rt, n.height, h, Find(t, key).id, key);
    } else if rt.Node? {
      var v := FindMin(rt);
      var rest := RemoveMin(rt);
      RemoveMinEntries(rt);
      UnlinkStep(t);
      var n := Update(Node(l, v.id, v.key, rest, v.height));
      ReplacementEntries(l, id, k, rt, h, v.id, v.key, rest, n.height);
    }
  }

  /** One level of erase into the left subtree keeps the ordering and the
    * ownership of cells, and the erased key stays out. */
  lemma EraseLeftKeeps(t: Tree, l': Tree, key: int, cell: nat)
    requires t.Node? && Ordered(t) && DistinctIds(t) && key < t.key
    requires Ordered(l') && DistinctIds(l') && Added(l', t.left, cell, key) && key !in Keys(l')
    ensures var n := Update(Node(l', t.id, t.key, t.right, t.height));
            Ordered(n) && DistinctIds(n) && key !in Keys(n)
  {
    assert t.id in Ids(t);
  }

  /** The mirror image of EraseLeftKeeps. */
  lemma EraseRightKeeps(t: Tree, r': Tree, key: int, cell: nat)
    requires t.Node? && Ordered(t) && DistinctIds(t) && t.key < key
    requires Ordered(r') && DistinctIds(r') && Added(r', t.right, cell, key) && key !in Keys(r')
    ensures var n := Update(Node(t.left, t.id, t.key, r', t.height));
            Ordered(n) && DistinctIds(n) && key !in Keys(n)
  {
    assert t.id in Ids(t);
  }

  /** The replacement root erase builds, the minimum v of the right subtree over
    * the left subtree and what remains of the right one, is ordered, owns its
    * cells exclusively and no longer holds the erased key. */
  lemma UnlinkKeeps(t: Tree, v: Tree, rest: Tree)
    requires t.Node? && Ordered(t) && DistinctIds(t) && v.Node?
    requires Ordered(rest) && DistinctIds(rest) && Added(rest, t.right, v.id, v.key)
    requires v.id !in Ids(rest) && forall x :: x in Keys(rest) ==> v.key < x
    ensures var n := Update(Node(t.left, v.id, v.key, rest, v.height));
            Ordered(n) && DistinctIds(n) && t.key !in Keys(n)
  {
    assert t.id in Ids(t) && v.key in Keys(t.right) && v.id in Ids(t.right);
    assert forall x :: x in Keys(t.left) ==> x < v.key;
  }

  /** Erasing a present key keeps the ordering and the ownership of cells, and
    * the key is gone. */
  lemma {:induction false} EraseKeeps(t: Tree, key: int)
    requires IsAvl(t) && key in Keys(t)
    ensures var r := Erase(t, key);
            Ordered(r) && DistinctIds(r) && key !in Keys(r)
  {
    if key < t.key {
      EraseKeeps(t.left, key);
      EraseEntries(t.left, key);
      EraseLeftKeeps(t, Erase(t.left, key), key, Find(t.left, key).id);
      EraseLeftStep(t, key);
    } else if t.key < key {
      EraseKeeps(t.right, key);
      EraseEntries(t.right, key);
      EraseRightKeeps(t, Erase(t.right, key), key, Find(t.right, key).id);
      EraseRightStep(t, key);
    } else if t.right.Node? {
      RemoveMinEntries(t.right);
      RemoveMinKeeps(t.right);
      UnlinkKeeps(t, FindMin(t.right), RemoveMin(t.right));
      UnlinkStep(t);
    }
  }

  /** erase removes `key` and keeps the invariant; an absent key leaves the tree
    * as it was, a present one takes out the node find reaches and nothing else. */
  lemma EraseContents(t: Tree, key: int)
    requires IsAvl(t)
    ensures var r := Erase(t, key);
            IsAvl(r) && Keys(r) == Keys(t) - {key} &&
            (key !in Keys(t) ==> r == t) &&
            (key in Keys(t) ==> Removed(r, t, Find(t, key).id, key))
  {
    if key in Keys(t) {
      EraseEntries(t, key);
      EraseKeeps(t, key);
    } else {
      EraseAbsent(t, key);
    }
  }

  // ---------------------------------------------------------------------------
  // The height of a new node
  // ---------------------------------------------------------------------------

  /** The node insert allocates, as the source writes it: the node's default
    * height is 0, which is also the height of a null subtree. */
  function NewNodeAsWritten(id: nat, key: int): (r: Tree)
    ensures r.Node? && r.left.Nil? && r.right.Nil? && !HeightsOk(r)
  {
    Node(Nil, id, key, Nil, 0)
  }

  /** Inserting 1, 2 and 3 with new nodes of height 0, each level updated and
    * rebalanced as insert does: after the third insert the root's cached
    * balance factor is -1, so rebalance leaves a chain of three nodes whose real
    * balance factor at the root is -2. */
  lemma AsWrittenChain()
    ensures var a := NewNodeAsWritten(0, 1);
            var t2 := Rebalance(Update(a.(right := NewNodeAsWritten(1, 2))));
            var b := Rebalance(Update(t2.right.(right := NewNodeAsWritten(2, 3))));
            var t3 := Rebalance(Update(t2.(right := b)));
            t3.key == 1 && t3.left.Nil? && t3.right.key == 2 && t3.right.right.key == 3 &&
            Depth(t3.left) - Depth(t3.right) == -2 && !AvlShape(t3)
  {
    var a := NewNodeAsWritten(0, 1);
    var n2 := Update(a.(right := NewNodeAsWritten(1, 2)));
    assert n2 == Node(Nil, 0, 1, Node(Nil, 1, 2, Nil, 0), 1);
    var t2 := Rebalance(n2);
    assert t2 == n2;
    var nb := Update(t2.right.(right := NewNodeAsWritten(2, 3)));
    assert nb == Node(Nil, 1, 2, Node(Nil, 2, 3, Nil, 0), 1);
    var b := Rebalance(nb);
    assert b == nb;
    var n3 := Update(t2.(right := b));
    assert n3 == Node(Nil, 0, 1, nb, 2);
    assert Diff(n3) == -1;
    var t3 := Rebalance(n3);
    assert t3 == n3;
    assert Depth(nb.right) == 1 && Depth(nb) == 2;
  }
}
