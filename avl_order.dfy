/**
 * Order facts about the tree engine that the queries of the set rely on: the
 * in-order sequence, the cell that holds each key, the node lower_bound's
 * descent stops at, the subtree rooted at a given cell, and where the next
 * and the previous key of a node live.
 */
module AvlOrder {
  import opened AvlTree

  // ---------------------------------------------------------------------------
  // Neighbouring keys
  // ---------------------------------------------------------------------------

  /** `j` is the next key of `keys` after `k`. */
  ghost predicate IsNextAbove(keys: set<int>, k: int, j: int)
  {
    j in keys && k < j && forall y :: y in keys && k < y ==> j <= y
  }

  /** `j` is the previous key of `keys` before `k`. */
  ghost predicate IsPrevBelow(keys: set<int>, k: int, j: int)
  {
    j in keys && j < k && forall y :: y in keys && y < k ==> y <= j
  }

  /** No key of `keys` lies above `k`. */
  ghost predicate NoneAbove(keys: set<int>, k: int)
  {
    forall y :: y in keys ==> y <= k
  }

  /** No key of `keys` lies below `k`. */
  ghost predicate NoneBelow(keys: set<int>, k: int)
  {
    forall y :: y in keys ==> k <= y
  }

  // ---------------------------------------------------------------------------
  // In-order sequence, size and the cell of a key
  // ---------------------------------------------------------------------------

  /** The in-order sequence lists exactly the keys of the subtree, one per node. */
  lemma {:induction false} InorderContents(t: Tree)
    ensures |Inorder(t)| == Size(t)
    ensures forall x :: x in Inorder(t) <==> x in Keys(t)
  {
    if t.Node? {
      InorderContents(t.left);
      InorderContents(t.right);
    }
  }

  /** An ordered tree lists its keys in strictly increasing order. */
  lemma {:induction false} InorderSorted(t: Tree)
    requires Ordered(t)
    ensures forall i, j :: 0 <= i < j < |Inorder(t)| ==> Inorder(t)[i] < Inorder(t)[j]
  {
    if t.Node? {
      InorderSorted(t.left);
      InorderSorted(t.right);
      InorderContents(t.left);
      InorderContents(t.right);
      var s, a, b := Inorder(t), Inorder(t.left), Inorder(t.right);
      assert s == a + [t.key] + b;
      forall i, j | 0 <= i < j < |s|
        ensures s[i] < s[j]
      {
        if j < |a| {
          assert s[i] == a[i] && s[j] == a[j];
        } else if i > |a| {
          assert s[i] == b[i - |a| - 1] && s[j] == b[j - |a| - 1];
        } else {
          assert i < |a| ==> s[i] == a[i] && s[i] in Keys(t.left);
          assert j > |a| ==> s[j] == b[j - |a| - 1] && s[j] in Keys(t.right);
        }
      }
    }
  }

  /** In an ordered tree every node holds a different key, so the number of
    * nodes is the number of keys: the size of the set. */
  lemma {:induction false} SizeIsCard(t: Tree)
    requires Ordered(t)
    ensures |Keys(t)| == Size(t)
  {
    if t.Node? {
      SizeIsCard(t.left);
      SizeIsCard(t.right);
      var l, r := Keys(t.left), Keys(t.right);
      forall x | x in l
        ensures x !in r && x != t.key
      {
        assert x < t.key;
      }
      assert t.key !in r;
      assert |l + {t.key}| == |l| + 1;
      assert |(l + {t.key}) + r| == |l + {t.key}| + |r|;
    }
  }

  /** A strictly increasing sequence. */
  ghost predicate Increasing(s: seq<int>)
  {
    forall i, j :: 0 <= i < j < |s| ==> s[i] < s[j]
  }

  /** In a strictly increasing listing of `keys`, the entry after `s[i]` is
    * its next key. */
  lemma ListedNext(s: seq<int>, keys: set<int>, i: int)
    requires Increasing(s) && (forall x :: x in s <==> x in keys) && 0 <= i < |s| - 1
    ensures IsNextAbove(keys, s[i], s[i + 1])
  {
    forall y | y in keys && s[i] < y
      ensures s[i + 1] <= y
    {
      var j :| 0 <= j < |s| && s[j] == y;
      assert i < j;
    }
  }

  /** A strictly increasing listing of `keys` starts at their smallest and ends
    * at their largest. */
  lemma ListedEnds(s: seq<int>, keys: set<int>)
    requires Increasing(s) && (forall x :: x in s <==> x in keys) && |s| > 0
    ensures NoneBelow(keys, s[0]) && NoneAbove(keys, s[|s| - 1])
  {
    forall y | y in keys
      ensures s[0] <= y <= s[|s| - 1]
    {
      var j :| 0 <= j < |s| && s[j] == y;
      assert j == 0 || s[0] < s[j];
      assert j == |s| - 1 || s[j] < s[|s| - 1];
    }
  }

  /** The in-order sequence is the walk by next keys: it starts at the smallest
    * key, each entry's next key is the entry after it, nothing lies above the
    * last one, and it has one entry per stored key. */
  lemma InorderWalk(t: Tree)
    requires Ordered(t)
    ensures var s := Inorder(t);
            |s| == Size(t) == |Keys(t)| &&
            (t.Node? ==> s[0] == FindMin(t).key && NoneAbove(Keys(t), s[|s| - 1])) &&
            forall i :: 0 <= i < |s| - 1 ==> IsNextAbove(Keys(t), s[i], s[i + 1])
  {
    var s := Inorder(t);
    InorderContents(t);
    InorderSorted(t);
    SizeIsCard(t);
    assert Increasing(s);
    forall i | 0 <= i < |s| - 1
      ensures IsNextAbove(Keys(t), s[i], s[i + 1])
    {
      ListedNext(s, Keys(t), i);
    }
    if t.Node? {
      ListedEnds(s, Keys(t));
    }
  }

  /** Every (cell, key) pair names a cell and a key of the subtree. */
  lemma {:induction false} EntriesInIdsAndKeys(t: Tree)
    ensures forall e :: e in Entries(t) ==> e.0 in Ids(t) && e.1 in Keys(t)
  {
    if t.Node? {
      EntriesInIdsAndKeys(t.left);
      EntriesInIdsAndKeys(t.right);
    }
  }

  /** In an ordered tree one cell holds each key. */
  lemma {:induction false} OneCellPerKey(t: Tree, i: nat, j: nat, k: int)
    requires Ordered(t) && (i, k) in Entries(t) && (j, k) in Entries(t)
    ensures i == j
  {
    EntriesInIdsAndKeys(t.left);
    EntriesInIdsAndKeys(t.right);
    if (i, k) in Entries(t.left) && (j, k) in Entries(t.left) {
      OneCellPerKey(t.left, i, j, k);
    } else if (i, k) in Entries(t.right) && (j, k) in Entries(t.right) {
      OneCellPerKey(t.right, i, j, k);
    }
  }

  /** When no two nodes share a cell, each cell holds one key. */
  lemma {:induction false} OneKeyPerCell(t: Tree, i: nat, k: int, k': int)
    requires DistinctIds(t) && (i, k) in Entries(t) && (i, k') in Entries(t)
    ensures k == k'
  {
    EntriesInIdsAndKeys(t.left);
    EntriesInIdsAndKeys(t.right);
    if (i, k) in Entries(t.left) && (i, k') in Entries(t.left) {
      OneKeyPerCell(t.left, i, k, k');
    } else if (i, k) in Entries(t.right) && (i, k') in Entries(t.right) {
      OneKeyPerCell(t.right, i, k, k');
    }
  }

  /** Every cell of a subtree holds some key of it. */
  lemma {:induction false} IdsHaveEntries(t: Tree)
    ensures forall i :: i in Ids(t) ==> exists k :: (i, k) in Entries(t)
  {
    if t.Node? {
      IdsHaveEntries(t.left);
      IdsHaveEntries(t.right);
      assert (t.id, t.key) in Entries(t);
    }
  }

  /** The cell a node was added in does not occur in the smaller tree when the
    * key it holds does not. */
  lemma AddedFresh(a: Tree, b: Tree, cell: nat, key: int)
    requires Added(a, b, cell, key) && DistinctIds(b) && key !in Keys(a)
    ensures cell !in Ids(a) && Ids(a) == Ids(b) - {cell}
  {
    if cell in Ids(a) {
      IdsHaveEntries(a);
      var k :| (cell, k) in Entries(a);
      OneKeyPerCell(b, cell, k, key);
      EntriesInIdsAndKeys(a);
      assert false;
    }
  }

  /** In an ordered tree the cell holding the smallest key is find_min's. */
  lemma MinCellIs(t: Tree, i: nat, k: int)
    requires Ordered(t) && t.Node? && (i, k) in Entries(t) && NoneBelow(Keys(t), k)
    ensures FindMin(t).id == i && FindMin(t).key == k
  {
    EntriesInIdsAndKeys(t);
    OneCellPerKey(t, FindMin(t).id, i, k);
  }

  /** The smallest key after insert: the new cell when the key is new and
    * smaller than every stored key (or the set was empty), the old minimum's
    * cell otherwise. */
  lemma InsertMin(t: Tree, key: int, cell: nat)
    requires IsAvl(t) && cell !in Ids(t)
    ensures var r := Insert(t, key, cell);
            FindMin(r).id == if key !in Keys(t) && (t.Nil? || key < FindMin(t).key) then cell else FindMin(t).id
  {
    var r := Insert(t, key, cell);
    InsertContents(t, key, cell);
    if key !in Keys(t) && (t.Nil? || key < FindMin(t).key) {
      MinCellIs(r, cell, key);
    } else if key !in Keys(t) {
      var m := FindMin(t);
      MinCellIs(r, m.id, m.key);
    }
  }

  /** Erasing a key other than the smallest keeps the minimum's cell. */
  lemma EraseKeepsMin(t: Tree, key: int)
    requires IsAvl(t) && key in Keys(t) && FindMin(t).key != key
    ensures Erase(t, key).Node? && FindMin(Erase(t, key)).id == FindMin(t).id
  {
    EraseContents(t, key);
    MinCellIs(Erase(t, key), FindMin(t).id, FindMin(t).key);
  }

  /** Once the smallest key's node is taken out, the cell of the next key holds
    * the new minimum. */
  lemma NextBecomesMin(a: Tree, b: Tree, cell: nat, key: int, q: nat, j: int)
    requires Ordered(a) && Added(a, b, cell, key) && key !in Keys(a) && NoneBelow(Keys(b), key)
    requires (q, j) in Entries(b) && IsNextAbove(Keys(b), key, j)
    ensures a.Node? && FindMin(a).id == q
  {
    assert (q, j) in Entries(a);
    EntriesInIdsAndKeys(a);
    MinCellIs(a, q, j);
  }

  /** Erasing the smallest key makes the cell of the next key the minimum's,
    * and empties a tree that holds no other key. */
  lemma EraseSmallest(t: Tree, key: int)
    requires IsAvl(t) && t.Node? && FindMin(t).key == key
    ensures NoneAbove(Keys(t), key) ==> Erase(t, key).Nil?
    ensures forall q, j :: (q, j) in Entries(t) && IsNextAbove(Keys(t), key, j) ==>
              Erase(t, key).Node? && FindMin(Erase(t, key)).id == q
  {
    var r := Erase(t, key);
    EraseContents(t, key);
    if NoneAbove(Keys(t), key) {
      assert Keys(r) == {};
    }
    forall q, j | (q, j) in Entries(t) && IsNextAbove(Keys(t), key, j)
      ensures r.Node? && FindMin(r).id == q
    {
      NextBecomesMin(r, t, Find(t, key).id, key, q, j);
    }
  }

  /** The smallest key after erasing a stored key: when the erased key was the
    * smallest, the cell of the next key, or an empty tree when there is none;
    * otherwise the old minimum's cell.  The erased cell is the minimum's
    * exactly when the erased key is the smallest. */
  lemma EraseMin(t: Tree, key: int)
    requires IsAvl(t) && key in Keys(t)
    ensures var r := Erase(t, key); var m := FindMin(t);
            (Find(t, key).id == m.id <==> m.key == key) &&
            (m.key != key ==> r.Node? && FindMin(r).id == m.id) &&
            (m.key == key && NoneAbove(Keys(t), key) ==> r.Nil?) &&
            (forall q, j :: m.key == key && (q, j) in Entries(t) && IsNextAbove(Keys(t), key, j) ==>
               r.Node? && FindMin(r).id == q)
  {
    var m := FindMin(t);
    var f := Find(t, key);
    if f.id == m.id {
      OneKeyPerCell(t, m.id, m.key, key);
    }
    if m.key == key {
      OneCellPerKey(t, f.id, m.id, key);
      EraseSmallest(t, key);
    } else {
      EraseKeepsMin(t, key);
    }
  }

  // ---------------------------------------------------------------------------
  // lower_bound's descent
  // ---------------------------------------------------------------------------

  /** lower_bound on a non-empty subtree: descend towards `key` and stop at the
    * node holding it, or at the last node before the descent would fall off. */
  function LowerBoundNode(t: Tree, key: int): (r: Tree)
    requires t.Node?
    ensures r.Node? && (r.id, r.key) in Entries(t) && r.id in Ids(t) && r.key in Keys(t)
    decreases t
  {
    if key < t.key then
      if t.left.Nil? then t else LowerBoundNode(t.left, key)
    else if t.key < key then
      if t.right.Nil? then t else LowerBoundNode(t.right, key)
    else
      t
  }

  /** In an ordered tree the node lower_bound's descent stops at holds either the
    * smallest key not below `key`, or the largest key below it. */
  lemma {:induction false} LowerBoundNodeIsNeighbour(t: Tree, key: int)
    requires t.Node? && Ordered(t)
    ensures var r := LowerBoundNode(t, key);
            (key <= r.key ==> forall x :: x in Keys(t) && key <= x ==> r.key <= x) &&
            (r.key < key ==> forall x :: x in Keys(t) && x < key ==> x <= r.key)
  {
    if key < t.key && t.left.Node? {
      LowerBoundNodeIsNeighbour(t.left, key);
    } else if t.key < key && t.right.Node? {
      LowerBoundNodeIsNeighbour(t.right, key);
    }
  }

  /** When the descent stops below `key`, the key after the stopping node is the
    * smallest key not below `key`, and when there is none no key reaches `key`. */
  lemma BelowThenNext(keys: set<int>, key: int, p: int)
    requires p in keys && p < key && forall x :: x in keys && x < key ==> x <= p
    ensures forall j :: IsNextAbove(keys, p, j) ==> key <= j && forall x :: x in keys && key <= x ==> j <= x
    ensures NoneAbove(keys, p) ==> forall x :: x in keys ==> x < key
  {
  }

  // ---------------------------------------------------------------------------
  // The subtree rooted at a cell
  // ---------------------------------------------------------------------------

  /** The subtree of `t` whose root is the cell `p`. */
  ghost function SubAt(t: Tree, p: nat): (s: Tree)
    requires p in Ids(t)
    ensures s.Node? && s.id == p
    decreases t
  {
    if t.id == p then t
    else if p in Ids(t.left) then SubAt(t.left, p)
    else SubAt(t.right, p)
  }

  /** A subtree's nodes are nodes of the tree, and it inherits the invariant. */
  lemma {:induction false} SubAtInside(t: Tree, p: nat)
    requires p in Ids(t)
    ensures var s := SubAt(t, p);
            Keys(s) <= Keys(t) && Ids(s) <= Ids(t) && Entries(s) <= Entries(t) && Size(s) <= Size(t) &&
            (p != t.id ==> Size(s) < Size(t)) &&
            (IsAvl(t) ==> IsAvl(s))
  {
    if t.id != p {
      if p in Ids(t.left) {
        SubAtInside(t.left, p);
      } else {
        SubAtInside(t.right, p);
      }
    }
  }

  /** The left child of the subtree at `p` is the subtree at the left child's cell. */
  lemma {:induction false} SubAtLeft(t: Tree, p: nat)
    requires DistinctIds(t) && p in Ids(t) && SubAt(t, p).left.Node?
    ensures SubAt(t, p).left.id in Ids(t) && SubAt(t, SubAt(t, p).left.id) == SubAt(t, p).left
  {
    var c := SubAt(t, p).left.id;
    if t.id == p {
      assert c in Ids(t.left);
    } else if p in Ids(t.left) {
      SubAtLeft(t.left, p);
      SubAtInside(t.left, c);
      SubAtInside(t.left, p);
      assert c in Ids(SubAt(t.left, p));
    } else {
      SubAtLeft(t.right, p);
      SubAtInside(t.right, p);
      assert c in Ids(SubAt(t.right, p));
    }
  }

  /** The mirror image of SubAtLeft. */
  lemma {:induction false} SubAtRight(t: Tree, p: nat)
    requires DistinctIds(t) && p in Ids(t) && SubAt(t, p).right.Node?
    ensures SubAt(t, p).right.id in Ids(t) && SubAt(t, SubAt(t, p).right.id) == SubAt(t, p).right
  {
    var c := SubAt(t, p).right.id;
    if t.id == p {
      assert c in Ids(t.right);
    } else if p in Ids(t.left) {
      SubAtRight(t.left, p);
      SubAtInside(t.left, p);
      assert c in Ids(SubAt(t.left, p));
    } else {
      SubAtRight(t.right, p);
      SubAtInside(t.right, p);
      assert c in Ids(SubAt(t.right, p));
    }
  }

  /** A key of the tree outside a subtree lies below all of the subtree's keys or
    * above all of them. */
  lemma {:induction false} Contiguous(t: Tree, p: nat, y: int)
    requires Ordered(t) && p in Ids(t) && y in Keys(t) && y !in Keys(SubAt(t, p))
    ensures (forall z :: z in Keys(SubAt(t, p)) ==> y < z) || (forall z :: z in Keys(SubAt(t, p)) ==> z < y)
  {
    if t.id != p {
      if p in Ids(t.left) {
        SubAtInside(t.left, p);
        if y in Keys(t.left) {
          Contiguous(t.left, p, y);
        }
      } else {
        SubAtInside(t.right, p);
        if y in Keys(t.right) {
          Contiguous(t.right, p, y);
        }
      }
    }
  }

  // ---------------------------------------------------------------------------
  // Where the next and the previous key live
  // ---------------------------------------------------------------------------

  /** The next key after a node with a right child is the minimum of its right
    * subtree. */
  lemma NextViaRight(t: Tree, p: nat)
    requires IsAvl(t) && p in Ids(t) && SubAt(t, p).right.Node?
    ensures IsNextAbove(Keys(t), SubAt(t, p).key, FindMin(SubAt(t, p).right).key)
  {
    var s := SubAt(t, p);
    SubAtInside(t, p);
    var m := FindMin(s.right).key;
    forall y | y in Keys(t) && s.key < y
      ensures m <= y
    {
      if y !in Keys(s) {
        Contiguous(t, p, y);
      }
    }
  }

  /** The next key after the maximum of a node's left subtree is the node's own. */
  lemma NextViaParent(t: Tree, q: nat)
    requires IsAvl(t) && q in Ids(t) && SubAt(t, q).left.Node?
    ensures IsNextAbove(Keys(t), FindMax(SubAt(t, q).left).key, SubAt(t, q).key)
  {
    var s := SubAt(t, q);
    SubAtInside(t, q);
    var m := FindMax(s.left).key;
    forall y | y in Keys(t) && m < y
      ensures s.key <= y
    {
      if y !in Keys(s) {
        Contiguous(t, q, y);
      }
    }
  }

  /** The previous key before a node with a left child is the maximum of its
    * left subtree. */
  lemma PrevViaLeft(t: Tree, p: nat)
    requires IsAvl(t) && p in Ids(t) && SubAt(t, p).left.Node?
    ensures IsPrevBelow(Keys(t), SubAt(t, p).key, FindMax(SubAt(t, p).left).key)
  {
    var s := SubAt(t, p);
    SubAtInside(t, p);
    var m := FindMax(s.left).key;
    forall y | y in Keys(t) && y < s.key
      ensures y <= m
    {
      if y !in Keys(s) {
        Contiguous(t, p, y);
      }
    }
  }

  /** The previous key before the minimum of a node's right subtree is the
    * node's own. */
  lemma PrevViaParent(t: Tree, q: nat)
    requires IsAvl(t) && q in Ids(t) && SubAt(t, q).right.Node?
    ensures IsPrevBelow(Keys(t), FindMin(SubAt(t, q).right).key, SubAt(t, q).key)
  {
    var s := SubAt(t, q);
    SubAtInside(t, q);
    var m := FindMin(s.right).key;
    forall y | y in Keys(t) && y < m
      ensures y <= s.key
    {
      if y !in Keys(s) {
        Contiguous(t, q, y);
      }
    }
  }
}
