/**
 * The ordered set itself: the nodes live in an arena of cells (one per heap
 * node, numbered by address), each with its left, right and parent pointers,
 * its cached height and its value.  The methods change the cells in place the
 * way the tree engine changes the nodes, and each is proved to realise the
 * corresponding function of the tree engine on the subtree it works on.
 */
module AvlSet {
  import opened AvlTree
  import opened AvlOrder

  /** The null pointer; as an iterator position it is end(). */
  const NIL: int := -1

  /** One heap node: its three links, its cached height and its value. */
  datatype Cell = Cell(left: int, right: int, parent: int, height: int, value: int)

  /** The cell of the root of a subtree, if any. */
  ghost function Top(t: Tree): set<int>
  {
    if t.Nil? then {} else {t.id}
  }

  /** The pointer to the root of a subtree. */
  function Ref(t: Tree): int
  {
    if t.Nil? then NIL else t.id
  }

  /** The cells hold subtree `t`: every node's cell has the node's links, height
    * and key, and each child's parent pointer is the node.  The parent pointer of
    * the subtree's own root is left to the enclosing node. */
  ghost predicate Rep(cells: map<int, Cell>, t: Tree)
  {
    match t
    case Nil => true
    case Node(l, id, k, r, h) =>
      Rep(cells, l) && Rep(cells, r) && id in cells &&
      cells[id].left == Ref(l) && cells[id].right == Ref(r) &&
      cells[id].height == h && cells[id].value == k &&
      (l.Node? ==> cells[l.id].parent == id) &&
      (r.Node? ==> cells[r.id].parent == id)
  }

  /** Every node of a represented subtree has a cell. */
  lemma {:induction false} RepCells(cells: map<int, Cell>, t: Tree)
    requires Rep(cells, t)
    ensures forall i :: i in Ids(t) ==> i in cells
  {
    if t.Node? {
      RepCells(cells, t.left);
      RepCells(cells, t.right);
    }
  }

  /** The cell of a node of a represented subtree holds that node's key. */
  lemma {:induction false} CellHoldsKey(cells: map<int, Cell>, t: Tree, i: nat)
    requires Rep(cells, t) && i in Ids(t)
    ensures i in cells && (i, cells[i].value) in Entries(t)
  {
    if i != t.id {
      if i in Ids(t.left) {
        CellHoldsKey(cells, t.left, i);
      } else {
        CellHoldsKey(cells, t.right, i);
      }
    }
  }

  // ---------------------------------------------------------------------------
  // Frames: which cells an operation leaves alone
  // ---------------------------------------------------------------------------

  /** Two cells hold the same links to children, the same height and value. */
  predicate SameBelow(a: Cell, b: Cell)
  {
    a.left == b.left && a.right == b.right && a.height == b.height && a.value == b.value
  }

  /** `c2` agrees with `c1` on the cells of `t`, except perhaps for the parent
    * pointer of its root. */
  ghost predicate Agree(c1: map<int, Cell>, c2: map<int, Cell>, t: Tree)
  {
    forall i :: i in Ids(t) ==>
      i in c1 && i in c2 && SameBelow(c1[i], c2[i]) && (i != Ref(t) ==> c2[i].parent == c1[i].parent)
  }

  /** Cells outside `s` are kept as they were. */
  ghost predicate UnchangedOutside(c1: map<int, Cell>, c2: map<int, Cell>, s: set<int>)
  {
    forall i :: i in c1 && i !in s ==> i in c2 && c2[i] == c1[i]
  }

  /** A represented subtree stays represented when its cells agree. */
  lemma {:induction false} RepFrame(c1: map<int, Cell>, c2: map<int, Cell>, t: Tree)
    requires Rep(c1, t) && DistinctIds(t) && Agree(c1, c2, t)
    ensures Rep(c2, t)
  {
    if t.Node? {
      assert Agree(c1, c2, t.left);
      assert Agree(c1, c2, t.right);
      RepFrame(c1, c2, t.left);
      RepFrame(c1, c2, t.right);
    }
  }

  /** A represented subtree none of whose cells was touched stays represented. */
  lemma Untouched(c1: map<int, Cell>, c2: map<int, Cell>, t: Tree, s: set<int>)
    requires Rep(c1, t) && DistinctIds(t) && UnchangedOutside(c1, c2, s)
    requires forall i :: i in Ids(t) ==> i !in s
    ensures Rep(c2, t)
  {
    RepCells(c1, t);
    RepFrame(c1, c2, t);
  }

  /** A represented subtree stays represented when only its root's parent
    * pointer and cells outside it were changed. */
  lemma Reparented(c1: map<int, Cell>, c2: map<int, Cell>, t: Tree, s: set<int>)
    requires Rep(c1, t) && DistinctIds(t) && t.Node? && UnchangedOutside(c1, c2, s + {t.id})
    requires forall i :: i in Ids(t) ==> i !in s
    requires t.id in c2 && SameBelow(c1[t.id], c2[t.id])
    ensures Rep(c2, t)
  {
    RepCells(c1, t);
    RepFrame(c1, c2, t);
  }

  /** Writes confined to `s` are confined to any set holding the cells of `s`. */
  lemma Within(c0: map<int, Cell>, c1: map<int, Cell>, s: set<int>, ids: set<nat>)
    requires UnchangedOutside(c0, c1, s)
    requires forall i :: i in s && i in c0 ==> i in ids
    ensures UnchangedOutside(c0, c1, ids)
  {
  }

  // ---------------------------------------------------------------------------
  // get_height, get_diff
  // ---------------------------------------------------------------------------

  /** get_height: the cached height behind a pointer, 0 for null.  On a
    * pointer to a represented subtree it is that subtree's height. */
  function GetHeight(cells: map<int, Cell>, u: int): (h: int)
    requires u == NIL || u in cells
    ensures forall t :: Rep(cells, t) && Ref(t) == u ==> h == Height(t)
  {
    if u == NIL then 0 else cells[u].height
  }

  /** A pointer to a represented subtree reads that subtree's height. */
  lemma HeightRead(cells: map<int, Cell>, t: Tree)
    requires Rep(cells, t)
    ensures Ref(t) == NIL || Ref(t) in cells
    ensures GetHeight(cells, Ref(t)) == Height(t)
  {
  }

  /** The children of a cell are null or cells. */
  predicate ChildrenIn(cells: map<int, Cell>, u: int)
  {
    u in cells &&
    (cells[u].left == NIL || cells[u].left in cells) &&
    (cells[u].right == NIL || cells[u].right in cells)
  }

  /** get_diff: left height minus right height of a node.  At the root of a
    * represented subtree it is that subtree's balance factor. */
  function GetDiff(cells: map<int, Cell>, u: int): (d: int)
    requires ChildrenIn(cells, u)
    ensures forall t :: Rep(cells, t) && t.Node? && t.id == u ==> d == Diff(t)
  {
    GetHeight(cells, cells[u].left) - GetHeight(cells, cells[u].right)
  }

  /** The root of a represented subtree reads its balance factor. */
  lemma DiffRead(cells: map<int, Cell>, t: Tree)
    requires Rep(cells, t) && t.Node?
    ensures ChildrenIn(cells, t.id) && GetDiff(cells, t.id) == Diff(t)
  {
    HeightRead(cells, t.left);
    HeightRead(cells, t.right);
  }

  // ---------------------------------------------------------------------------
  // The pointer and height writes
  // ---------------------------------------------------------------------------

  /** The cells after link_left(u, v). */
  function WithLeft(c: map<int, Cell>, u: int, v: int): (r: map<int, Cell>)
    requires u in c && (v == NIL || v in c)
    ensures r.Keys == c.Keys
  {
    var c' := c[u := c[u].(left := v)];
    if v == NIL then c' else c'[v := c'[v].(parent := u)]
  }

  /** The cells after link_right(u, v). */
  function WithRight(c: map<int, Cell>, u: int, v: int): (r: map<int, Cell>)
    requires u in c && (v == NIL || v in c)
    ensures r.Keys == c.Keys
  {
    var c' := c[u := c[u].(right := v)];
    if v == NIL then c' else c'[v := c'[v].(parent := u)]
  }

  /** The cells after update(u). */
  function WithHeight(c: map<int, Cell>, u: int): (r: map<int, Cell>)
    requires ChildrenIn(c, u)
    ensures r.Keys == c.Keys
  {
    c[u := c[u].(height := 1 + Max(GetHeight(c, c[u].left), GetHeight(c, c[u].right)))]
  }

  /** What rotate_right's four writes do to the cells of a represented subtree. */
  lemma RotateRightWrites(c0: map<int, Cell>,
                          a: Tree, lid: nat, lk: int, b: Tree, lh: int, id: nat, k: int, c: Tree, h: int)
    requires Rep(c0, Node(Node(a, lid, lk, b, lh), id, k, c, h))
    requires DistinctIds(Node(Node(a, lid, lk, b, lh), id, k, c, h))
    ensures id in c0 && lid in c0 && (Ref(b) == NIL || Ref(b) in c0)
    ensures var c1 := WithLeft(c0, id, Ref(b));
            var c2 := WithRight(c1, lid, id);
            ChildrenIn(c2, id) && ChildrenIn(WithHeight(c2, id), lid) &&
            var c4 := WithHeight(WithHeight(c2, id), lid);
            UnchangedOutside(c0, c4, {id, lid} + Top(b)) &&
            id in c4 && c4[id] == Cell(Ref(b), Ref(c), lid, 1 + Max(Height(b), Height(c)), k) &&
            lid in c4 && c4[lid] == Cell(Ref(a), id, c4[lid].parent, 1 + Max(Height(a), 1 + Max(Height(b), Height(c))), lk) &&
            (b.Node? ==> b.id in c4 && b.id in c0 && c4[b.id] == c0[b.id].(parent := id))
  {
    HeightRead(c0, a);
    HeightRead(c0, b);
    HeightRead(c0, c);
  }

  /** What rotate_left's four writes do to the cells of a represented subtree. */
  lemma RotateLeftWrites(c0: map<int, Cell>,
                         a: Tree, id: nat, k: int, b: Tree, rid: nat, rk: int, c: Tree, rh: int, h: int)
    requires Rep(c0, Node(a, id, k, Node(b, rid, rk, c, rh), h))
    requires DistinctIds(Node(a, id, k, Node(b, rid, rk, c, rh), h))
    ensures id in c0 && rid in c0 && (Ref(b) == NIL || Ref(b) in c0)
    ensures var c1 := WithRight(c0, id, Ref(b));
            var c2 := WithLeft(c1, rid, id);
            ChildrenIn(c2, id) && ChildrenIn(WithHeight(c2, id), rid) &&
            var c4 := WithHeight(WithHeight(c2, id), rid);
            UnchangedOutside(c0, c4, {id, rid} + Top(b)) &&
            id in c4 && c4[id] == Cell(Ref(a), Ref(b), rid, 1 + Max(Height(a), Height(b)), k) &&
            rid in c4 && c4[rid] == Cell(id, Ref(c), c4[rid].parent, 1 + Max(1 + Max(Height(a), Height(b)), Height(c)), rk) &&
            (b.Node? ==> b.id in c4 && b.id in c0 && c4[b.id] == c0[b.id].(parent := id))
  {
    HeightRead(c0, a);
    HeightRead(c0, b);
    HeightRead(c0, c);
  }

  // ---------------------------------------------------------------------------
  // The cells after a rotation
  // ---------------------------------------------------------------------------

  /** After rotate_right's pointer and height writes, the cells hold the rotated
    * subtree: the root's left child is raised, the root becomes its right child
    * and takes over its former right subtree. */
  lemma RotatedRight(c0: map<int, Cell>, c1: map<int, Cell>,
                     a: Tree, lid: nat, lk: int, b: Tree, lh: int, id: nat, k: int, c: Tree, h: int)
    requires Rep(c0, Node(Node(a, lid, lk, b, lh), id, k, c, h))
    requires DistinctIds(Node(Node(a, lid, lk, b, lh), id, k, c, h))
    requires UnchangedOutside(c0, c1, {id, lid} + Top(b))
    requires id in c1 && c1[id] == Cell(Ref(b), Ref(c), lid, 1 + Max(Height(b), Height(c)), k)
    requires lid in c1 && c1[lid] == Cell(Ref(a), id, c1[lid].parent, 1 + Max(Height(a), 1 + Max(Height(b), Height(c))), lk)
    requires b.Node? ==> b.id in c1 && b.id in c0 && c1[b.id] == c0[b.id].(parent := id)
    ensures Rep(c1, RotateRight(Node(Node(a, lid, lk, b, lh), id, k, c, h)))
    ensures UnchangedOutside(c0, c1, Ids(Node(Node(a, lid, lk, b, lh), id, k, c, h)))
  {
    var s := {id, lid} + Top(b);
    Within(c0, c1, s, Ids(Node(Node(a, lid, lk, b, lh), id, k, c, h)));
    Untouched(c0, c1, a, s);
    Untouched(c0, c1, c, s);
    if b.Node? {
      Reparented(c0, c1, b, {id, lid});
    }
    assert Rep(c1, Update(Node(b, id, k, c, h)));
  }

  /** The mirror image of RotatedRight. */
  lemma RotatedLeft(c0: map<int, Cell>, c1: map<int, Cell>,
                    a: Tree, id: nat, k: int, b: Tree, rid: nat, rk: int, c: Tree, rh: int, h: int)
    requires Rep(c0, Node(a, id, k, Node(b, rid, rk, c, rh), h))
    requires DistinctIds(Node(a, id, k, Node(b, rid, rk, c, rh), h))
    requires UnchangedOutside(c0, c1, {id, rid} + Top(b))
    requires id in c1 && c1[id] == Cell(Ref(a), Ref(b), rid, 1 + Max(Height(a), Height(b)), k)
    requires rid in c1 && c1[rid] == Cell(id, Ref(c), c1[rid].parent, 1 + Max(1 + Max(Height(a), Height(b)), Height(c)), rk)
    requires b.Node? ==> b.id in c1 && b.id in c0 && c1[b.id] == c0[b.id].(parent := id)
    ensures Rep(c1, RotateLeft(Node(a, id, k, Node(b, rid, rk, c, rh), h)))
    ensures UnchangedOutside(c0, c1, Ids(Node(a, id, k, Node(b, rid, rk, c, rh), h)))
  {
    var s := {id, rid} + Top(b);
    Within(c0, c1, s, Ids(Node(a, id, k, Node(b, rid, rk, c, rh), h)));
    Untouched(c0, c1, a, s);
    Untouched(c0, c1, c, s);
    if b.Node? {
      Reparented(c0, c1, b, {id, rid});
    }
    assert Rep(c1, Update(Node(a, id, k, b, h)));
  }

  // ---------------------------------------------------------------------------
  // The cells after a child is replaced and relinked, and after update
  // ---------------------------------------------------------------------------

  /** A node whose left subtree was rebuilt in `s` and then relinked with
    * link_left is again represented, with the new left subtree. */
  lemma RelinkLeft(c0: map<int, Cell>, c1: map<int, Cell>, s: set<int>,
                   l: Tree, id: nat, k: int, r: Tree, h: int, l': Tree)
    requires Rep(c0, Node(l, id, k, r, h)) && DistinctIds(Node(l, id, k, r, h))
    requires Rep(c1, l') && DistinctIds(l') && id !in Ids(l')
    requires forall i :: i in Ids(l') ==> i !in Ids(r)
    requires UnchangedOutside(c0, c1, s) && forall i :: i in s ==> i !in Ids(r) && i != id
    ensures id in c1 && (Ref(l') == NIL || Ref(l') in c1)
    ensures Rep(WithLeft(c1, id, Ref(l')), Node(l', id, k, r, h))
    ensures UnchangedOutside(c0, WithLeft(c1, id, Ref(l')), s + {id} + Top(l'))
  {
    RepCells(c1, l');
    var c2 := WithLeft(c1, id, Ref(l'));
    var s2 := s + {id} + Top(l');
    assert UnchangedOutside(c0, c2, s2);
    Untouched(c0, c2, r, s2);
    if l'.Node? {
      assert UnchangedOutside(c1, c2, {id} + {l'.id});
      Reparented(c1, c2, l', {id});
    }
  }

  /** The mirror image of RelinkLeft. */
  lemma RelinkRight(c0: map<int, Cell>, c1: map<int, Cell>, s: set<int>,
                    l: Tree, id: nat, k: int, r: Tree, h: int, r': Tree)
    requires Rep(c0, Node(l, id, k, r, h)) && DistinctIds(Node(l, id, k, r, h))
    requires Rep(c1, r') && DistinctIds(r') && id !in Ids(r')
    requires forall i :: i in Ids(r') ==> i !in Ids(l)
    requires UnchangedOutside(c0, c1, s) && forall i :: i in s ==> i !in Ids(l) && i != id
    ensures id in c1 && (Ref(r') == NIL || Ref(r') in c1)
    ensures Rep(WithRight(c1, id, Ref(r')), Node(l, id, k, r', h))
    ensures UnchangedOutside(c0, WithRight(c1, id, Ref(r')), s + {id} + Top(r'))
  {
    RepCells(c1, r');
    var c2 := WithRight(c1, id, Ref(r'));
    var s2 := s + {id} + Top(r');
    assert UnchangedOutside(c0, c2, s2);
    Untouched(c0, c2, l, s2);
    if r'.Node? {
      assert UnchangedOutside(c1, c2, {id} + {r'.id});
      Reparented(c1, c2, r', {id});
    }
  }

  /** update on the root of a represented subtree gives the updated subtree. */
  lemma Updated(c: map<int, Cell>, l: Tree, id: nat, k: int, r: Tree, h: int)
    requires Rep(c, Node(l, id, k, r, h)) && DistinctIds(Node(l, id, k, r, h))
    ensures ChildrenIn(c, id)
    ensures Rep(WithHeight(c, id), Update(Node(l, id, k, r, h)))
    ensures UnchangedOutside(c, WithHeight(c, id), {id})
  {
    HeightRead(c, l);
    HeightRead(c, r);
    Untouched(c, WithHeight(c, id), l, {id});
    Untouched(c, WithHeight(c, id), r, {id});
  }

  /** One level of the recursive algorithms on the left: the left subtree was
    * rebuilt (touching only its own cells and fresh ones), linked back with
    * link_left and the node updated. */
  lemma StepLeft(c0: map<int, Cell>, c1: map<int, Cell>, t: Tree, l': Tree)
    requires Rep(c0, t) && DistinctIds(t) && t.Node?
    requires Rep(c1, l') && DistinctIds(l') && UnchangedOutside(c0, c1, Ids(t.left))
    requires forall i :: i in Ids(l') ==> i in Ids(t.left) || i !in c0
    ensures t.id in c1 && (Ref(l') == NIL || Ref(l') in c1)
    ensures ChildrenIn(WithLeft(c1, t.id, Ref(l')), t.id)
    ensures Rep(WithHeight(WithLeft(c1, t.id, Ref(l')), t.id), Update(Node(l', t.id, t.key, t.right, t.height)))
    ensures UnchangedOutside(c0, WithHeight(WithLeft(c1, t.id, Ref(l')), t.id), Ids(t.left) + {t.id} + Top(l'))
  {
    RepCells(c0, t);
    RelinkLeft(c0, c1, Ids(t.left), t.left, t.id, t.key, t.right, t.height, l');
    Updated(WithLeft(c1, t.id, Ref(l')), l', t.id, t.key, t.right, t.height);
  }

  /** The mirror image of StepLeft. */
  lemma StepRight(c0: map<int, Cell>, c1: map<int, Cell>, t: Tree, r': Tree)
    requires Rep(c0, t) && DistinctIds(t) && t.Node?
    requires Rep(c1, r') && DistinctIds(r') && UnchangedOutside(c0, c1, Ids(t.right))
    requires forall i :: i in Ids(r') ==> i in Ids(t.right) || i !in c0
    ensures t.id in c1 && (Ref(r') == NIL || Ref(r') in c1)
    ensures ChildrenIn(WithRight(c1, t.id, Ref(r')), t.id)
    ensures Rep(WithHeight(WithRight(c1, t.id, Ref(r')), t.id), Update(Node(t.left, t.id, t.key, r', t.height)))
    ensures UnchangedOutside(c0, WithHeight(WithRight(c1, t.id, Ref(r')), t.id), Ids(t.right) + {t.id} + Top(r'))
  {
    RepCells(c0, t);
    RelinkRight(c0, c1, Ids(t.right), t.left, t.id, t.key, t.right, t.height, r');
    Updated(WithRight(c1, t.id, Ref(r')), t.left, t.id, t.key, r', t.height);
  }

  /** In an ordered tree a key below the root's is stored iff it is stored on the
    * left, and one above it iff it is stored on the right. */
  lemma KeySide(t: Tree, key: int)
    requires t.Node? && Ordered(t)
    ensures key < t.key ==> (key in Keys(t) <==> key in Keys(t.left))
    ensures t.key < key ==> (key in Keys(t) <==> key in Keys(t.right))
  {
  }

  /** One level of insert on the left, on the cells: once the left subtree holds
    * the insertion's result and is relinked and the node updated, the cells hold
    * the node rebalance is applied to, and insert's result is that rebalance. */
  lemma InsertLeftLevel(c0: map<int, Cell>, c1: map<int, Cell>, t: Tree, key: int, cell: nat) returns (n: Tree)
    requires Rep(c0, t) && IsAvl(t) && t.Node? && key < t.key && cell !in c0
    requires Rep(c1, Insert(t.left, key, cell)) && UnchangedOutside(c0, c1, Ids(t.left))
    ensures t.id in c1 && Insert(t.left, key, cell).id in c1
    ensures ChildrenIn(WithLeft(c1, t.id, Insert(t.left, key, cell).id), t.id)
    ensures n == Update(Node(Insert(t.left, key, cell), t.id, t.key, t.right, t.height))
    ensures var c3 := WithHeight(WithLeft(c1, t.id, Insert(t.left, key, cell).id), t.id);
            Rep(c3, n) && DistinctIds(n) && CanRebalance(n) && Rebalance(n) == Insert(t, key, cell) &&
            UnchangedOutside(c0, c3, Ids(t)) && Ids(n) <= Ids(t) + {cell}
  {
    RepCells(c0, t);
    var l' := Insert(t.left, key, cell);
    InsertContents(t.left, key, cell);
    StepLeft(c0, c1, t, l');
    InsertLeftStep(t, key, cell);
    if key in Keys(t.left) {
      UpdateKeepsCorrect(t);
    } else {
      InsertLeftKeeps(t, l', key, cell);
    }
    n := Update(Node(Insert(t.left, key, cell), t.id, t.key, t.right, t.height));
    Within(c0, WithHeight(WithLeft(c1, t.id, l'.id), t.id), Ids(t.left) + {t.id} + Top(l'), Ids(t));
  }

  /** The mirror image of InsertLeftLevel. */
  lemma InsertRightLevel(c0: map<int, Cell>, c1: map<int, Cell>, t: Tree, key: int, cell: nat) returns (n: Tree)
    requires Rep(c0, t) && IsAvl(t) && t.Node? && t.key < key && cell !in c0
    requires Rep(c1, Insert(t.right, key, cell)) && UnchangedOutside(c0, c1, Ids(t.right))
    ensures t.id in c1 && Insert(t.right, key, cell).id in c1
    ensures ChildrenIn(WithRight(c1, t.id, Insert(t.right, key, cell).id), t.id)
    ensures n == Update(Node(t.left, t.id, t.key, Insert(t.right, key, cell), t.height))
    ensures var c3 := WithHeight(WithRight(c1, t.id, Insert(t.right, key, cell).id), t.id);
            Rep(c3, n) && DistinctIds(n) && CanRebalance(n) && Rebalance(n) == Insert(t, key, cell) &&
            UnchangedOutside(c0, c3, Ids(t)) && Ids(n) <= Ids(t) + {cell}
  {
    RepCells(c0, t);
    var r' := Insert(t.right, key, cell);
    InsertContents(t.right, key, cell);
    StepRight(c0, c1, t, r');
    InsertRightStep(t, key, cell);
    if key in Keys(t.right) {
      UpdateKeepsCorrect(t);
    } else {
      InsertRightKeeps(t, r', key, cell);
    }
    n := Update(Node(t.left, t.id, t.key, Insert(t.right, key, cell), t.height));
    Within(c0, WithHeight(WithRight(c1, t.id, r'.id), t.id), Ids(t.right) + {t.id} + Top(r'), Ids(t));
  }

  /** One level of erase on the left, on the cells: once the left subtree holds
    * the erasure's result and is relinked and the node updated, the cells hold
    * the node rebalance is applied to, and erase's result is that rebalance. */
  lemma EraseLeftLevel(c0: map<int, Cell>, c1: map<int, Cell>, t: Tree, key: int) returns (n: Tree)
    requires Rep(c0, t) && IsAvl(t) && t.Node? && key < t.key
    requires Rep(c1, Erase(t.left, key)) && UnchangedOutside(c0, c1, Ids(t.left))
    ensures t.id in c1 && (Ref(Erase(t.left, key)) == NIL || Ref(Erase(t.left, key)) in c1)
    ensures ChildrenIn(WithLeft(c1, t.id, Ref(Erase(t.left, key))), t.id)
    ensures n == Update(Node(Erase(t.left, key), t.id, t.key, t.right, t.height))
    ensures var c3 := WithHeight(WithLeft(c1, t.id, Ref(Erase(t.left, key))), t.id);
            Rep(c3, n) && DistinctIds(n) && CanRebalance(n) && Rebalance(n) == Erase(t, key) &&
            UnchangedOutside(c0, c3, Ids(t)) && Ids(n) <= Ids(t)
  {
    var l' := Erase(t.left, key);
    EraseContents(t.left, key);
    StepLeft(c0, c1, t, l');
    EraseLeftStep(t, key);
    if key in Keys(t.left) {
      EraseLeftKeeps(t, l', key, Find(t.left, key).id);
    } else {
      UpdateKeepsCorrect(t);
    }
    n := Update(Node(l', t.id, t.key, t.right, t.height));
    Within(c0, WithHeight(WithLeft(c1, t.id, Ref(l')), t.id), Ids(t.left) + {t.id} + Top(l'), Ids(t));
  }

  /** The mirror image of EraseLeftLevel. */
  lemma EraseRightLevel(c0: map<int, Cell>, c1: map<int, Cell>, t: Tree, key: int) returns (n: Tree)
    requires Rep(c0, t) && IsAvl(t) && t.Node? && t.key < key
    requires Rep(c1, Erase(t.right, key)) && UnchangedOutside(c0, c1, Ids(t.right))
    ensures t.id in c1 && (Ref(Erase(t.right, key)) == NIL || Ref(Erase(t.right, key)) in c1)
    ensures ChildrenIn(WithRight(c1, t.id, Ref(Erase(t.right, key))), t.id)
    ensures n == Update(Node(t.left, t.id, t.key, Erase(t.right, key), t.height))
    ensures var c3 := WithHeight(WithRight(c1, t.id, Ref(Erase(t.right, key))), t.id);
            Rep(c3, n) && DistinctIds(n) && CanRebalance(n) && Rebalance(n) == Erase(t, key) &&
            UnchangedOutside(c0, c3, Ids(t)) && Ids(n) <= Ids(t)
  {
    var r' := Erase(t.right, key);
    EraseContents(t.right, key);
    StepRight(c0, c1, t, r');
    EraseRightStep(t, key);
    if key in Keys(t.right) {
      EraseRightKeeps(t, r', key, Find(t.right, key).id);
    } else {
      UpdateKeepsCorrect(t);
    }
    n := Update(Node(t.left, t.id, t.key, r', t.height));
    Within(c0, WithHeight(WithRight(c1, t.id, Ref(r')), t.id), Ids(t.right) + {t.id} + Top(r'), Ids(t));
  }

  /** Two rounds of writes touch only the cells either round touched. */
  lemma Compose(c0: map<int, Cell>, c1: map<int, Cell>, c2: map<int, Cell>, s1: set<int>, s2: set<int>)
    requires UnchangedOutside(c0, c1, s1) && UnchangedOutside(c1, c2, s2)
    ensures UnchangedOutside(c0, c2, s1 + s2)
  {
  }

  /** One level of remove_min on the cells: once the left subtree holds what
    * remove_min left of it and is relinked and the node updated, the cells hold
    * the node rebalance is applied to, and remove_min's result is that
    * rebalance; only cells that stay in the tree were written. */
  lemma RemoveMinLevel(c0: map<int, Cell>, c1: map<int, Cell>, t: Tree) returns (n: Tree)
    requires Rep(c0, t) && IsAvl(t) && t.Node? && t.left.Node?
    requires Rep(c1, RemoveMin(t.left)) && UnchangedOutside(c0, c1, Ids(RemoveMin(t.left)))
    ensures t.id in c1 && (Ref(RemoveMin(t.left)) == NIL || Ref(RemoveMin(t.left)) in c1)
    ensures ChildrenIn(WithLeft(c1, t.id, Ref(RemoveMin(t.left))), t.id)
    ensures n == Update(Node(RemoveMin(t.left), t.id, t.key, t.right, t.height))
    ensures var c3 := WithHeight(WithLeft(c1, t.id, Ref(RemoveMin(t.left))), t.id);
            Rep(c3, n) && DistinctIds(n) && CanRebalance(n) && Rebalance(n) == RemoveMin(t) &&
            UnchangedOutside(c0, c3, Ids(RemoveMin(t)))
  {
    var l' := RemoveMin(t.left);
    RemoveMinKeeps(t.left);
    RemoveMinEntries(t.left);
    RelinkLeft(c0, c1, Ids(l'), t.left, t.id, t.key, t.right, t.height, l');
    var c2 := WithLeft(c1, t.id, Ref(l'));
    Updated(c2, l', t.id, t.key, t.right, t.height);
    RemoveMinStep(t);
    n := Update(Node(l', t.id, t.key, t.right, t.height));
    Compose(c0, c2, WithHeight(c2, t.id), Ids(l') + {t.id} + Top(l'), {t.id});
    Within(c0, WithHeight(c2, t.id), Ids(l') + {t.id} + Top(l') + {t.id}, Ids(RemoveMin(t)));
  }

  /** find_min on the cells: follow left pointers from `u`. */
  function FindMinAt(cells: map<int, Cell>, u: int, ghost t: Tree): (r: int)
    requires Rep(cells, t) && t.Node? && u == t.id
    ensures r == FindMin(t).id && r in cells && cells[r].left == NIL
    decreases t
  {
    if cells[u].left == NIL then u else FindMinAt(cells, cells[u].left, t.left)
  }

  /** The cell of the minimum of a represented subtree holds the minimum node. */
  lemma {:induction false} MinCell(c: map<int, Cell>, t: Tree)
    requires Rep(c, t) && t.Node?
    ensures var m := FindMin(t);
            m.id in c && c[m.id].left == NIL && c[m.id].right == Ref(m.right) &&
            c[m.id].height == m.height && c[m.id].value == m.key
  {
    if t.left.Node? {
      MinCell(c, t.left);
    }
  }

  /** The replacement erase builds once remove_min has run on the right subtree:
    * the minimum's cell, untouched so far, takes the left subtree and what
    * remains of the right one as its children. */
  lemma SpliceMin(c0: map<int, Cell>, c1: map<int, Cell>, t: Tree)
    requires Rep(c0, t) && IsAvl(t) && t.Node? && t.right.Node?
    requires Rep(c1, RemoveMin(t.right)) && UnchangedOutside(c0, c1, Ids(RemoveMin(t.right)))
    ensures var m := FindMin(t.right);
            var rest := RemoveMin(t.right);
            t.id in c1 && c1[t.id] == c0[t.id] && m.id in c1 &&
            (Ref(rest) == NIL || Ref(rest) in c1) && (Ref(t.left) == NIL || Ref(t.left) in c1) &&
            var c2 := Splice(c1, m.id, Ref(rest), Ref(t.left));
            Rep(c2, Node(t.left, m.id, m.key, rest, m.height)) &&
            DistinctIds(Node(t.left, m.id, m.key, rest, m.height)) &&
            UnchangedOutside(c0, c2, Ids(t.left) + Ids(t.right))
  {
    var m := FindMin(t.right);
    var rest := RemoveMin(t.right);
    RemoveMinKeeps(t.right);
    RemoveMinEntries(t.right);
    RepCells(c0, t);
    MinCell(c0, t.right);
    assert m.id in Ids(t.right) && t.id !in Ids(t.right);
    Untouched(c0, c1, t.left, Ids(rest));
    RepCells(c1, rest);
    RepCells(c1, t.left);
    var c2 := Splice(c1, m.id, Ref(rest), Ref(t.left));
    var s := {m.id} + Top(rest) + Top(t.left);
    assert UnchangedOutside(c1, c2, s);
    if rest.Node? {
      Reparented(c1, c2, rest, {m.id} + Top(t.left));
    }
    if t.left.Node? {
      Reparented(c1, c2, t.left, {m.id} + Top(rest));
    }
    Compose(c0, c1, c2, Ids(rest), s);
    Within(c0, c2, Ids(rest) + s, Ids(t.left) + Ids(t.right));
  }

  /** The cells after link_right(v, rest) and link_left(v, l). */
  function Splice(c: map<int, Cell>, v: int, rest: int, l: int): (r: map<int, Cell>)
    requires v in c && (rest == NIL || rest in c) && (l == NIL || l in c)
    ensures r.Keys == c.Keys
  {
    WithLeft(WithRight(c, v, rest), v, l)
  }

  /** The two-child case of erase on the cells: after the splice, update(v) and
    * the deletion of the erased cell, the cells hold the node rebalance is
    * applied to, and the unlink's result is that rebalance. */
  lemma UnlinkLevel(c0: map<int, Cell>, c1: map<int, Cell>, t: Tree) returns (n: Tree)
    requires Rep(c0, t) && IsAvl(t) && t.Node? && t.right.Node?
    requires Rep(c1, RemoveMin(t.right)) && UnchangedOutside(c0, c1, Ids(RemoveMin(t.right)))
    ensures t.id in c1 && c1[t.id] == c0[t.id] && FindMin(t.right).id in c1
    ensures Ref(RemoveMin(t.right)) == NIL || Ref(RemoveMin(t.right)) in c1
    ensures Ref(t.left) == NIL || Ref(t.left) in c1
    ensures ChildrenIn(Splice(c1, FindMin(t.right).id, Ref(RemoveMin(t.right)), Ref(t.left)), FindMin(t.right).id)
    ensures n == Update(Node(t.left, FindMin(t.right).id, FindMin(t.right).key, RemoveMin(t.right), FindMin(t.right).height))
    ensures var c3 := WithHeight(Splice(c1, FindMin(t.right).id, Ref(RemoveMin(t.right)), Ref(t.left)), FindMin(t.right).id) - {t.id};
            Rep(c3, n) && DistinctIds(n) && CanRebalance(n) && Rebalance(n) == Unlink(t) &&
            UnchangedOutside(c0, c3, Ids(t)) && Ids(n) <= Ids(t)
  {
    var m := FindMin(t.right);
    var rest := RemoveMin(t.right);
    SpliceMin(c0, c1, t);
    var c2 := Splice(c1, m.id, Ref(rest), Ref(t.left));
    Updated(c2, t.left, m.id, m.key, rest, m.height);
    n := Update(Node(t.left, m.id, m.key, rest, m.height));
    var c2' := WithHeight(c2, m.id);
    var c3 := c2' - {t.id};
    RemoveMinEntries(t.right);
    assert t.id !in Ids(n);
    Untouched(c2', c3, n, {t.id});
    UnlinkStep(t);
    Compose(c0, c2, c2', Ids(t.left) + Ids(t.right), {m.id});
    Compose(c0, c2', c3, Ids(t.left) + Ids(t.right) + {m.id}, {t.id});
    Within(c0, c3, Ids(t.left) + Ids(t.right) + {m.id} + {t.id}, Ids(t));
  }

  // ---------------------------------------------------------------------------
  // Parent pointers and the iterator's steps
  // ---------------------------------------------------------------------------

  /** The cells of a represented tree hold every subtree of it. */
  lemma {:induction false} RepSub(c: map<int, Cell>, t: Tree, p: nat)
    requires Rep(c, t) && p in Ids(t)
    ensures Rep(c, SubAt(t, p))
  {
    if t.id != p {
      if p in Ids(t.left) {
        RepSub(c, t.left, p);
      } else {
        RepSub(c, t.right, p);
      }
    }
  }

  /** Cell `q` is a child of the node at cell `p` of `t`. */
  ghost predicate ChildOf(t: Tree, q: int, p: int)
  {
    p >= 0 && p in Ids(t) &&
    ((SubAt(t, p).left.Node? && SubAt(t, p).left.id == q) ||
     (SubAt(t, p).right.Node? && SubAt(t, p).right.id == q))
  }

  /** Below the root, a cell's parent pointer leads to the node it hangs from. */
  lemma {:induction false} ParentOf(c: map<int, Cell>, t: Tree, q: nat)
    requires Rep(c, t) && DistinctIds(t) && q in Ids(t) && q != t.id
    ensures q in c && ChildOf(t, q, c[q].parent)
  {
    RepCells(c, t);
    if q in Ids(t.left) {
      if q != t.left.id {
        ParentOf(c, t.left, q);
      }
    } else {
      if q != t.right.id {
        ParentOf(c, t.right, q);
      }
    }
  }

  /** In a tree whose root has no parent, the parent pointer is null exactly at
    * the root, and leads to the enclosing node everywhere else. */
  lemma ParentLink(c: map<int, Cell>, t: Tree, q: nat)
    requires Rep(c, t) && DistinctIds(t) && q in Ids(t) && c[t.id].parent == NIL
    ensures q in c && (c[q].parent == NIL <==> q == t.id)
    ensures q != t.id ==> ChildOf(t, q, c[q].parent)
  {
    RepCells(c, t);
    if q != t.id {
      ParentOf(c, t, q);
    }
  }

  /** The subtree at a child of `p` is that child of the subtree at `p`, and
    * it is smaller. */
  lemma ChildSub(t: Tree, q: nat, p: int)
    requires DistinctIds(t) && ChildOf(t, q, p)
    ensures q in Ids(t) && Size(SubAt(t, q)) < Size(SubAt(t, p))
    ensures SubAt(t, p).left.Node? && SubAt(t, p).left.id == q ==> SubAt(t, q) == SubAt(t, p).left
    ensures SubAt(t, p).right.Node? && SubAt(t, p).right.id == q ==> SubAt(t, q) == SubAt(t, p).right
  {
    if SubAt(t, p).left.Node? && SubAt(t, p).left.id == q {
      SubAtLeft(t, p);
    }
    if SubAt(t, p).right.Node? && SubAt(t, p).right.id == q {
      SubAtRight(t, p);
    }
  }

  /** What erase leaves in begin(): the successor of the erased key in the
    * tree before the erase when the erased cell was begin(), else `b0`. */
  ghost predicate BeginStep(c: map<int, Cell>, whole: Tree, key: int, stepped: bool, b0: int, b: int)
  {
    if stepped then IsSuccessor(c, whole, key, b) else b == b0
  }

  /** `t` is the subtree of `whole` rooted at its own root's cell, or empty. */
  ghost predicate IsSub(t: Tree, whole: Tree)
  {
    t.Nil? || (t.id in Ids(whole) && SubAt(whole, t.id) == t)
  }

  /** The children of a subtree are subtrees. */
  lemma SubChildren(whole: Tree, t: Tree)
    requires DistinctIds(whole) && IsSub(t, whole) && t.Node?
    ensures IsSub(t.left, whole) && IsSub(t.right, whole)
  {
    if t.left.Node? {
      ChildSub(whole, t.left.id, t.id);
    }
    if t.right.Node? {
      ChildSub(whole, t.right.id, t.id);
    }
  }

  /** Where ++ lands from a node holding `k`: the cell holding the next key, or
    * null (end()) when `k` is the largest. */
  ghost predicate IsSuccessor(cells: map<int, Cell>, t: Tree, k: int, q: int)
  {
    if NoneAbove(Keys(t), k) then q == NIL
    else q in Ids(t) && q in cells && IsNextAbove(Keys(t), k, cells[q].value)
  }

  /** Where -- lands from a node holding `k`: the cell holding the previous
    * key, or null when `k` is the smallest. */
  ghost predicate IsPredecessor(cells: map<int, Cell>, t: Tree, k: int, q: int)
  {
    if NoneBelow(Keys(t), k) then q == NIL
    else q in Ids(t) && q in cells && IsPrevBelow(Keys(t), k, cells[q].value)
  }

  /** A step of ++'s walk down the right subtree: going left from a node keeps
    * the leftmost node ahead. */
  lemma DescendLeft(c: map<int, Cell>, t: Tree, q: nat)
    requires Rep(c, t) && DistinctIds(t) && q in Ids(t) && q in c && c[q].left != NIL
    ensures ChildOf(t, c[q].left, q) && c[q].left in Ids(t)
    ensures FindMin(SubAt(t, c[q].left)) == FindMin(SubAt(t, q))
    ensures Size(SubAt(t, c[q].left)) < Size(SubAt(t, q))
  {
    RepSub(c, t, q);
    ChildSub(t, c[q].left, q);
  }

  /** The mirror image of DescendLeft, for --'s walks down to a maximum. */
  lemma DescendRight(c: map<int, Cell>, t: Tree, q: nat)
    requires Rep(c, t) && DistinctIds(t) && q in Ids(t) && q in c && c[q].right != NIL
    ensures ChildOf(t, c[q].right, q) && c[q].right in Ids(t)
    ensures FindMax(SubAt(t, c[q].right)) == FindMax(SubAt(t, q))
    ensures Size(SubAt(t, c[q].right)) < Size(SubAt(t, q))
  {
    RepSub(c, t, q);
    ChildSub(t, c[q].right, q);
  }

  /** Where a walk down left pointers stops is the minimum it was heading for. */
  lemma StopLeft(c: map<int, Cell>, t: Tree, q: nat)
    requires Rep(c, t) && q in Ids(t) && q in c && c[q].left == NIL
    ensures FindMin(SubAt(t, q)).id == q && FindMin(SubAt(t, q)).key == c[q].value
  {
    RepSub(c, t, q);
  }

  /** Where a walk down right pointers stops is the maximum it was heading for. */
  lemma StopRight(c: map<int, Cell>, t: Tree, q: nat)
    requires Rep(c, t) && q in Ids(t) && q in c && c[q].right == NIL
    ensures FindMax(SubAt(t, q)).id == q && FindMax(SubAt(t, q)).key == c[q].value
  {
    RepSub(c, t, q);
  }

  /** A step of ++'s climb: from a right child to its parent the largest key
    * below stays the same. */
  lemma ClimbFromRight(c: map<int, Cell>, t: Tree, q: nat)
    requires Rep(c, t) && DistinctIds(t) && q in Ids(t) && q in c && t.id in c && q != t.id && c[t.id].parent == NIL
    requires c[q].parent in c && c[c[q].parent].right == q
    ensures c[q].parent in Ids(t) && FindMax(SubAt(t, c[q].parent)) == FindMax(SubAt(t, q))
    ensures Size(SubAt(t, q)) < Size(SubAt(t, c[q].parent))
  {
    ParentLink(c, t, q);
    var p := c[q].parent;
    RepSub(c, t, p);
    ChildSub(t, q, p);
  }

  /** The mirror image of ClimbFromRight, for --'s climb from left children. */
  lemma ClimbFromLeft(c: map<int, Cell>, t: Tree, q: nat)
    requires Rep(c, t) && DistinctIds(t) && q in Ids(t) && q in c && t.id in c && q != t.id && c[t.id].parent == NIL
    requires c[q].parent in c && c[c[q].parent].left == q
    ensures c[q].parent in Ids(t) && FindMin(SubAt(t, c[q].parent)) == FindMin(SubAt(t, q))
    ensures Size(SubAt(t, q)) < Size(SubAt(t, c[q].parent))
  {
    ParentLink(c, t, q);
    var p := c[q].parent;
    RepSub(c, t, p);
    ChildSub(t, q, p);
  }

  /** ++'s climb ends at a left child: its parent holds the next key after the
    * largest key of the child's subtree. */
  lemma ClimbEndedLeft(c: map<int, Cell>, t: Tree, q: nat)
    requires Rep(c, t) && IsAvl(t) && q in Ids(t) && q in c && t.id in c && q != t.id && c[t.id].parent == NIL
    requires c[q].parent in c && c[c[q].parent].right != q
    ensures IsSuccessor(c, t, FindMax(SubAt(t, q)).key, c[q].parent)
  {
    ParentLink(c, t, q);
    var p := c[q].parent;
    RepSub(c, t, p);
    ChildSub(t, q, p);
    NextViaParent(t, p);
    CellHoldsKey(c, t, p);
    SubAtInside(t, p);
    OneKeyPerCell(t, p, c[p].value, SubAt(t, p).key);
  }

  /** The mirror image of ClimbEndedLeft, for --. */
  lemma ClimbEndedRight(c: map<int, Cell>, t: Tree, q: nat)
    requires Rep(c, t) && IsAvl(t) && q in Ids(t) && q in c && t.id in c && q != t.id && c[t.id].parent == NIL
    requires c[q].parent in c && c[c[q].parent].left != q
    ensures IsPredecessor(c, t, FindMin(SubAt(t, q)).key, c[q].parent)
  {
    ParentLink(c, t, q);
    var p := c[q].parent;
    RepSub(c, t, p);
    ChildSub(t, q, p);
    PrevViaParent(t, p);
    CellHoldsKey(c, t, p);
    SubAtInside(t, p);
    OneKeyPerCell(t, p, c[p].value, SubAt(t, p).key);
  }

  // ---------------------------------------------------------------------------
  // The queries find and lower_bound, and the facade's bookkeeping
  // ---------------------------------------------------------------------------

  /** find on the cells: the cell of the node holding `key` in the subtree at
    * `u`, or null when the descent falls off the tree. */
  function FindAt(cells: map<int, Cell>, u: int, key: int, ghost t: Tree): (r: int)
    requires Rep(cells, t) && u == Ref(t)
    ensures r == Ref(Find(t, key))
    ensures r != NIL ==> r in cells && cells[r].value == key
    decreases t
  {
    if u == NIL then NIL
    else if key < cells[u].value then FindAt(cells, cells[u].left, key, t.left)
    else if cells[u].value < key then FindAt(cells, cells[u].right, key, t.right)
    else u
  }

  /** The private lower_bound on the cells: the cell lower_bound's descent
    * stops at in the non-empty subtree at `u`. */
  function LowerBoundAt(cells: map<int, Cell>, u: int, key: int, ghost t: Tree): (r: int)
    requires Rep(cells, t) && t.Node? && u == t.id
    ensures r == LowerBoundNode(t, key).id
    ensures r in cells && cells[r].value == LowerBoundNode(t, key).key
    decreases t
  {
    if key < cells[u].value then
      if cells[u].left == NIL then u else LowerBoundAt(cells, cells[u].left, key, t.left)
    else if cells[u].value < key then
      if cells[u].right == NIL then u else LowerBoundAt(cells, cells[u].right, key, t.right)
    else
      u
  }

  /** Two heaps that hold the same tree over exactly its cells, with the same
    * parent pointer at the root, are the same heap. */
  lemma SameCells(c1: map<int, Cell>, c2: map<int, Cell>, t: Tree)
    requires Rep(c1, t) && Rep(c2, t) && c1.Keys == Ids(t) && c2.Keys == Ids(t)
    requires t.Node? ==> c1[t.id].parent == c2[t.id].parent
    ensures c1 == c2
  {
    SameBelowAll(c1, c2, t);
    forall i | i in c1
      ensures c1[i] == c2[i]
    {
      assert SameBelow(c1[i], c2[i]);
    }
  }

  /** The cells of a subtree represented twice agree on everything but the
    * parent pointer of its root. */
  lemma {:induction false} SameBelowAll(c1: map<int, Cell>, c2: map<int, Cell>, t: Tree)
    requires Rep(c1, t) && Rep(c2, t)
    ensures forall i :: i in Ids(t) ==>
              i in c1 && i in c2 && SameBelow(c1[i], c2[i]) && (i != t.id ==> c1[i].parent == c2[i].parent)
  {
    if t.Node? {
      SameBelowAll(c1, c2, t.left);
      SameBelowAll(c1, c2, t.right);
    }
  }

  /** Resetting the parent pointer of a represented tree's root keeps it
    * represented. */
  lemma RootDetached(c: map<int, Cell>, t: Tree)
    requires Rep(c, t) && DistinctIds(t) && t.Node?
    ensures var c' := c[t.id := c[t.id].(parent := NIL)];
            Rep(c', t) && c'.Keys == c.Keys && c'[t.id].parent == NIL
  {
    Reparented(c, c[t.id := c[t.id].(parent := NIL)], t, {});
  }

  /** The cells and the node count after erase: the erased key's cell goes
    * when the key is stored, and nothing else does. */
  lemma ErasedIds(t: Tree, key: int)
    requires IsAvl(t)
    ensures var r := Erase(t, key);
            Ids(r) == Ids(t) - (if key in Keys(t) then {Ref(Find(t, key))} else {}) &&
            Size(r) == Size(t) - (if key in Keys(t) then 1 else 0)
  {
    EraseContents(t, key);
    if key in Keys(t) {
      AddedFresh(Erase(t, key), t, Find(t, key).id, key);
    }
  }

  /** begin() after insert: the cached minimum's cell, moved to the new cell
    * when the key is new and smaller than the cached minimum's value (or the
    * set was empty), stays the minimum's. */
  lemma InsertedBegin(c: map<int, Cell>, t: Tree, key: int, cell: nat, b0: int)
    requires Rep(c, t) && IsAvl(t) && cell !in Ids(t)
    requires b0 == if t.Nil? then NIL else FindMin(t).id
    ensures b0 == NIL || b0 in c
    ensures var b := if key !in Keys(t) && (b0 == NIL || key < c[b0].value) then cell else b0;
            b == FindMin(Insert(t, key, cell)).id
  {
    InsertMin(t, key, cell);
    if t.Node? {
      MinCell(c, t);
    }
  }

  /** begin() after erase: stepping begin() to the successor of the erased key
    * exactly when its cell was erased leaves begin() at the new minimum, or at
    * end() once the set is empty. */
  lemma ErasedBegin(c: map<int, Cell>, t: Tree, key: int, b0: int, b: int)
    requires Rep(c, t) && IsAvl(t) && b0 == (if t.Nil? then NIL else FindMin(t).id)
    requires BeginStep(c, t, key, key in Keys(t) && b0 == Ref(Find(t, key)), b0, b)
    ensures b == Ref(if Erase(t, key).Nil? then Nil else FindMin(Erase(t, key)))
  {
    EraseContents(t, key);
    if key in Keys(t) {
      EraseMin(t, key);
      if b0 == Ref(Find(t, key)) && !NoneAbove(Keys(t), key) {
        CellHoldsKey(c, t, b);
      }
    }
  }

  /** The heap holds AVL tree `t` rooted at `root`, which has no parent; every
    * allocated cell is a node of it, and every address is below `next`, the
    * allocator's next address. */
  ghost predicate Holds(cells: map<int, Cell>, root: int, next: nat, t: Tree)
  {
    Rep(cells, t) && IsAvl(t) && root == Ref(t) &&
    (t.Node? ==> cells[t.id].parent == NIL) &&
    cells.Keys == Ids(t) && (forall i :: i in cells ==> 0 <= i < next)
  }

  /** The invariant of a set whose fields hold these values: the heap holds
    * the tree, `size` counts its nodes and `begin` is the cell of its smallest
    * key, or null when it is empty. */
  ghost predicate SetInv(cells: map<int, Cell>, root: int, size: nat, begin: int, next: nat, t: Tree)
  {
    Holds(cells, root, next, t) && size == Size(t) && begin == (if t.Nil? then NIL else FindMin(t).id)
  }

  /** The fields after insert satisfy the invariant for the inserted tree. */
  lemma InsertedValid(c0: map<int, Cell>, c1: map<int, Cell>, t: Tree, key: int, cell: nat, r: int,
                      u: int, s0: nat, b0: int, s1: nat, b1: int) returns (n: Tree)
    requires SetInv(c0, u, s0, b0, cell, t)
    requires Rep(c1, Insert(t, key, cell)) && r == Insert(t, key, cell).id
    requires c1.Keys == c0.Keys + (if key in Keys(t) then {} else {cell})
    requires s1 == s0 + (if key in Keys(t) then 0 else 1)
    requires b0 == NIL || b0 in c0
    requires b1 == if key !in Keys(t) && (b0 == NIL || key < c0[b0].value) then cell else b0
    ensures n == Insert(t, key, cell)
    ensures var c2 := c1[r := c1[r].(parent := NIL)];
            SetInv(c2, r, s1, b1, cell + (if key in Keys(t) then 0 else 1), n) &&
            Keys(n) == Keys(t) + {key} &&
            (key in Keys(t) ==> c2 == c0 && n == t)
  {
    n := Insert(t, key, cell);
    InsertedHolds(c0, c1, t, key, cell, r);
    InsertedBegin(c0, t, key, cell, b0);
  }

  /** The fields after erase satisfy the invariant for the erased tree. */
  lemma ErasedValid(c0: map<int, Cell>, c1: map<int, Cell>, t: Tree, key: int, next: nat, r: int,
                    u: int, s0: nat, b0: int, s1: nat, b1: int) returns (n: Tree)
    requires SetInv(c0, u, s0, b0, next, t)
    requires Rep(c1, Erase(t, key)) && r == Ref(Erase(t, key))
    requires c1.Keys == c0.Keys - (if key in Keys(t) then {Ref(Find(t, key))} else {})
    requires s1 == s0 - (if key in Keys(t) then 1 else 0)
    requires BeginStep(c0, t, key, key in Keys(t) && b0 == Ref(Find(t, key)), b0, b1)
    ensures n == Erase(t, key)
    ensures var c2 := if r == NIL then c1 else c1[r := c1[r].(parent := NIL)];
            SetInv(c2, r, s1, b1, next, n) &&
            Keys(n) == Keys(t) - {key} &&
            (key !in Keys(t) ==> c2 == c0 && n == t && b1 == b0)
  {
    n := Erase(t, key);
    ErasedHolds(c0, c1, t, key, next, r);
    ErasedBegin(c0, t, key, b0, b1);
  }

  /** The heap after insert, once the new root's parent pointer is reset,
    * holds the inserted tree; a key already stored leaves heap and tree as
    * they were. */
  lemma InsertedHolds(c0: map<int, Cell>, c1: map<int, Cell>, t: Tree, key: int, cell: nat, r: int)
    requires Holds(c0, Ref(t), cell, t)
    requires Rep(c1, Insert(t, key, cell)) && r == Insert(t, key, cell).id
    requires c1.Keys == c0.Keys + (if key in Keys(t) then {} else {cell})
    ensures var n := Insert(t, key, cell);
            var c2 := c1[r := c1[r].(parent := NIL)];
            Holds(c2, r, cell + (if key in Keys(t) then 0 else 1), n) &&
            Keys(n) == Keys(t) + {key} && Size(n) == Size(t) + (if key in Keys(t) then 0 else 1) &&
            (key in Keys(t) ==> c2 == c0 && n == t)
  {
    InsertedCells(c0, c1, t, key, cell, r);
    RootDetached(c1, Insert(t, key, cell));
    if key in Keys(t) {
      SameCells(c0, c1[r := c1[r].(parent := NIL)], t);
    }
  }

  /** What insert does to the set of cells and the node count. */
  lemma InsertedCells(c0: map<int, Cell>, c1: map<int, Cell>, t: Tree, key: int, cell: nat, r: int)
    requires Holds(c0, Ref(t), cell, t)
    requires c1.Keys == c0.Keys + (if key in Keys(t) then {} else {cell})
    ensures var n := Insert(t, key, cell);
            IsAvl(n) && Keys(n) == Keys(t) + {key} && (key in Keys(t) ==> n == t) &&
            c1.Keys == Ids(n) && Size(n) == Size(t) + (if key in Keys(t) then 0 else 1) &&
            (forall i :: i in c1 ==> 0 <= i < cell + (if key in Keys(t) then 0 else 1))
  {
    assert cell !in Ids(t);
    InsertContents(t, key, cell);
  }

  /** The heap after erase, once the new root's parent pointer is reset,
    * holds the erased tree; an absent key leaves heap and tree as they were. */
  lemma ErasedHolds(c0: map<int, Cell>, c1: map<int, Cell>, t: Tree, key: int, next: nat, r: int)
    requires Holds(c0, Ref(t), next, t)
    requires Rep(c1, Erase(t, key)) && r == Ref(Erase(t, key))
    requires c1.Keys == c0.Keys - (if key in Keys(t) then {Ref(Find(t, key))} else {})
    ensures var n := Erase(t, key);
            var c2 := if r == NIL then c1 else c1[r := c1[r].(parent := NIL)];
            Holds(c2, r, next, n) &&
            Keys(n) == Keys(t) - {key} && Size(n) == Size(t) - (if key in Keys(t) then 1 else 0) &&
            (key !in Keys(t) ==> c2 == c0 && n == t)
  {
    var n := Erase(t, key);
    EraseContents(t, key);
    ErasedIds(t, key);
    if r != NIL {
      RootDetached(c1, n);
    }
    if key !in Keys(t) {
      SameCells(c0, if r == NIL then c1 else c1[r := c1[r].(parent := NIL)], t);
    }
  }

  /** The cell of a node of a represented subtree holds one of its keys. */
  lemma StoredValue(c: map<int, Cell>, t: Tree, i: int)
    requires Rep(c, t) && i in Ids(t)
    ensures i in c && c[i].value in Keys(t)
  {
    CellHoldsKey(c, t, i);
    EntriesInIdsAndKeys(t);
  }

  /** The position of the minimum holds the smallest key; there is none in an
    * empty tree. */
  lemma MinAtBegin(c: map<int, Cell>, t: Tree, b: int)
    requires Rep(c, t) && Ordered(t) && b == (if t.Nil? then NIL else FindMin(t).id)
    ensures b == NIL <==> Keys(t) == {}
    ensures b != NIL ==> b in c && c[b].value in Keys(t) && NoneBelow(Keys(t), c[b].value)
  {
    if t.Node? {
      MinCell(c, t);
    }
  }

  /** One ++ of the walk from begin(): from the position of the `i`-th key of
    * the in-order sequence, ++ lands on the position of the next entry, and on
    * end() after the last one. */
  lemma WalkStep(c: map<int, Cell>, t: Tree, i: int, q: int)
    requires Ordered(t) && 0 <= i < |Inorder(t)| && IsSuccessor(c, t, Inorder(t)[i], q)
    ensures i + 1 < |Inorder(t)| ==> q != NIL && q in c && c[q].value == Inorder(t)[i + 1]
    ensures i + 1 == |Inorder(t)| ==> q == NIL
  {
    var s := Inorder(t);
    InorderWalk(t);
    if i + 1 < |s| {
      assert IsNextAbove(Keys(t), s[i], s[i + 1]);
      assert !NoneAbove(Keys(t), s[i]);
      assert IsNextAbove(Keys(t), s[i], c[q].value);
    } else {
      assert t.Node? && NoneAbove(Keys(t), s[i]);
    }
  }

  /** ++ then --: from a position other than the last, -- after ++ returns to
    * the position started from. */
  lemma {:induction false} NextThenPrev(c: map<int, Cell>, t: Tree, p: int, q: int, p2: int)
    requires Rep(c, t) && Ordered(t) && p in Ids(t) && p in c
    requires IsSuccessor(c, t, c[p].value, q) && q != NIL
    requires IsPredecessor(c, t, c[q].value, p2)
    ensures p2 == p
  {
    CellHoldsKey(c, t, p);
    StoredValue(c, t, p);
    var k := c[p].value;
    assert !NoneAbove(Keys(t), k);
    assert !NoneBelow(Keys(t), c[q].value);
    CellHoldsKey(c, t, p2);
    assert c[p2].value == k;
    OneCellPerKey(t, p, p2, k);
  }

  /** -- then ++: from a position other than begin(), ++ after -- returns to
    * the position started from. */
  lemma {:induction false} PrevThenNext(c: map<int, Cell>, t: Tree, p: int, q: int, p2: int)
    requires Rep(c, t) && Ordered(t) && p in Ids(t) && p in c
    requires IsPredecessor(c, t, c[p].value, q) && q != NIL
    requires IsSuccessor(c, t, c[q].value, p2)
    ensures p2 == p
  {
    CellHoldsKey(c, t, p);
    StoredValue(c, t, p);
    var k := c[p].value;
    assert !NoneBelow(Keys(t), k);
    assert !NoneAbove(Keys(t), c[q].value);
    CellHoldsKey(c, t, p2);
    assert c[p2].value == k;
    OneCellPerKey(t, p, p2, k);
  }

  /** ++ from the last position reaches end(), and -- from end(), which
    * lands on the rightmost node, returns to it. */
  lemma {:induction false} LastThenEnd(c: map<int, Cell>, t: Tree, p: int)
    requires Rep(c, t) && Ordered(t) && p in Ids(t) && p in c
    requires IsSuccessor(c, t, c[p].value, NIL)
    ensures t.Node? && p == FindMax(t).id
  {
    CellHoldsKey(c, t, p);
    StoredValue(c, t, p);
    var k := c[p].value;
    assert NoneAbove(Keys(t), k);
    var m := FindMax(t);
    assert m.key == k;
    OneCellPerKey(t, p, m.id, k);
  }

  /** link_left(u, v) with `v` the root of a represented subtree not holding
    * `u`: the subtree stays represented and hangs below `u`. */
  lemma LinkedLeft(c: map<int, Cell>, u: int, t: Tree)
    requires Rep(c, t) && DistinctIds(t) && u in c && u !in Ids(t) && (t.Nil? || t.id in c)
    ensures var c' := WithLeft(c, u, Ref(t));
            Rep(c', t) && c'[u] == c[u].(left := Ref(t)) && UnchangedOutside(c, c', {u} + Top(t)) &&
            (t.Node? ==> c'[t.id].parent == u)
  {
    if t.Node? {
      Reparented(c, WithLeft(c, u, Ref(t)), t, {u});
    }
  }

  /** link_right(u, v) with `v` the root of a represented subtree not holding
    * `u`: the subtree stays represented and hangs below `u`. */
  lemma LinkedRight(c: map<int, Cell>, u: int, t: Tree)
    requires Rep(c, t) && DistinctIds(t) && u in c && u !in Ids(t) && (t.Nil? || t.id in c)
    ensures var c' := WithRight(c, u, Ref(t));
            Rep(c', t) && c'[u] == c[u].(right := Ref(t)) && UnchangedOutside(c, c', {u} + Top(t)) &&
            (t.Node? ==> c'[t.id].parent == u)
  {
    if t.Node? {
      Reparented(c, WithRight(c, u, Ref(t)), t, {u});
    }
  }

  /** The cells the copy of a node adds, and the cells it keeps. */
  lemma CopiedCells(c0: map<int, Cell>, c1: map<int, Cell>, c2: map<int, Cell>, c3: map<int, Cell>,
                    c4: map<int, Cell>, c5: map<int, Cell>, t: Tree)
    requires t.Node? && (forall i :: i in Ids(t) ==> i !in c0) && t.id in c1 && c1.Keys == c0.Keys + {t.id}
    requires UnchangedOutside(c0, c1, {t.id}) && UnchangedOutside(c1, c2, {}) && c2.Keys == c1.Keys + Ids(t.left)
    requires t.id in c2 && (t.left.Nil? || t.left.id in c2) && c3 == WithLeft(c2, t.id, Ref(t.left))
    requires UnchangedOutside(c3, c4, {}) && c4.Keys == c3.Keys + Ids(t.right)
    requires t.id in c4 && (t.right.Nil? || t.right.id in c4) && c5 == WithRight(c4, t.id, Ref(t.right))
    ensures c5.Keys == c0.Keys + Ids(t) && UnchangedOutside(c0, c5, {})
  {
    forall i | i in c0
      ensures i in c5 && c5[i] == c0[i]
    {
      if t.left.Node? {
        assert t.left.id in Ids(t.left);
      }
      if t.right.Node? {
        assert t.right.id in Ids(t.right);
      }
      assert c3[i] == c2[i];
    }
  }

  /** The copy of a node: its fresh cell `c1` holding the node's height and
    * key, the copy of its left subtree `c2`, linking it `c3`, the copy of its
    * right subtree `c4` and linking that `c5`. */
  lemma CopiedNode(c1: map<int, Cell>, c2: map<int, Cell>, c3: map<int, Cell>,
                   c4: map<int, Cell>, c5: map<int, Cell>, t: Tree)
    requires DistinctIds(t) && t.Node? && t.id in c1 && c1[t.id] == Cell(NIL, NIL, NIL, t.height, t.key)
    requires Rep(c2, t.left) && t.id in c2 && c2[t.id] == c1[t.id]
    requires (t.left.Nil? || t.left.id in c2) && c3 == WithLeft(c2, t.id, Ref(t.left))
    requires Rep(c4, t.right) && UnchangedOutside(c3, c4, {})
    requires t.id in c4 && (t.right.Nil? || t.right.id in c4) && c5 == WithRight(c4, t.id, Ref(t.right))
    ensures Rep(c5, t) && c5[t.id].parent == NIL
  {
    CopyLeftLinked(c2, c3, c4, t);
    CopyRightLinked(c4, c5, t);
  }

  /** After the left subtree's copy is linked below the node's cell and the
    * right subtree's copy is made. */
  lemma CopyLeftLinked(c2: map<int, Cell>, c3: map<int, Cell>, c4: map<int, Cell>, t: Tree)
    requires DistinctIds(t) && t.Node? && Rep(c2, t.left)
    requires t.id in c2 && (t.left.Nil? || t.left.id in c2) && c3 == WithLeft(c2, t.id, Ref(t.left))
    requires UnchangedOutside(c3, c4, {})
    ensures Rep(c4, t.left) && t.id in c4 && c4[t.id] == c2[t.id].(left := Ref(t.left))
    ensures t.left.Node? ==> t.left.id in c4 && c4[t.left.id].parent == t.id
  {
    LinkedLeft(c2, t.id, t.left);
    Untouched(c3, c4, t.left, {});
  }

  /** After the right subtree's copy is linked below the node's cell. */
  lemma CopyRightLinked(c4: map<int, Cell>, c5: map<int, Cell>, t: Tree)
    requires DistinctIds(t) && t.Node? && Rep(c4, t.left) && Rep(c4, t.right)
    requires t.left.Node? ==> t.left.id in c4 && c4[t.left.id].parent == t.id
    requires t.id in c4 && (t.right.Nil? || t.right.id in c4) && c5 == WithRight(c4, t.id, Ref(t.right))
    ensures Rep(c5, t.left) && Rep(c5, t.right) && t.id in c5 && c5[t.id] == c4[t.id].(right := Ref(t.right))
    ensures t.left.Node? ==> t.left.id in c5 && c5[t.left.id].parent == t.id
    ensures t.right.Node? ==> t.right.id in c5 && c5[t.right.id].parent == t.id
  {
    LinkedRight(c4, t.id, t.right);
    Untouched(c4, c5, t.left, {t.id} + Top(t.right));
  }

  // ---------------------------------------------------------------------------
  // The set
  // ---------------------------------------------------------------------------

  class Set {
    /** The heap: the cell of every allocated node, by address. */
    var cells: map<int, Cell>
    var root_: int
    var size_: nat
    /** The cached begin(): the node of the smallest key, or null. */
    var begin_: int
    /** The next address the allocator hands out. */
    var next: nat
    /** The tree the cells hold. */
    ghost var tree: Tree

    /** link_left: make `v` the left child of `u`. */
    method LinkLeft(u: int, v: int)
      requires u in cells && (v == NIL || v in cells)
      modifies this`cells
      ensures cells == WithLeft(old(cells), u, v)
    {
      cells := cells[u := cells[u].(left := v)];
      if v != NIL {
        cells := cells[v := cells[v].(parent := u)];
      }
    }

    /** link_right: make `v` the right child of `u`. */
    method LinkRight(u: int, v: int)
      requires u in cells && (v == NIL || v in cells)
      modifies this`cells
      ensures cells == WithRight(old(cells), u, v)
    {
      cells := cells[u := cells[u].(right := v)];
      if v != NIL {
        cells := cells[v := cells[v].(parent := u)];
      }
    }

    /** update: recompute the cached height of `u` from its children's. */
    method UpdateAt(u: int)
      requires ChildrenIn(cells, u)
      modifies this`cells
      ensures cells == WithHeight(old(cells), u)
    {
      cells := cells[u := cells[u].(height := 1 + Max(GetHeight(cells, cells[u].left), GetHeight(cells, cells[u].right)))];
    }

    /** rotate_right on the cells: realises RotateRight on the subtree at `u`. */
    method RotateRightAt(u: int, ghost t: Tree) returns (res: int)
      requires Rep(cells, t) && DistinctIds(t) && t.Node? && t.left.Node? && u == t.id
      modifies this`cells
      ensures res == t.left.id && Rep(cells, RotateRight(t))
      ensures UnchangedOutside(old(cells), cells, Ids(t)) && cells.Keys == old(cells).Keys
    {
      ghost var Node(Node(a, lid, lk, b, lh), id, k, c, h) := t;
      HeightRead(cells, a);
      HeightRead(cells, b);
      HeightRead(cells, c);
      res := cells[u].left;
      LinkLeft(u, cells[res].right);
      LinkRight(res, u);
      UpdateAt(u);
      UpdateAt(res);
      RotateRightWrites(old(cells), a, lid, lk, b, lh, id, k, c, h);
      RotatedRight(old(cells), cells, a, lid, lk, b, lh, id, k, c, h);
    }

    /** rotate_left on the cells: realises RotateLeft on the subtree at `u`. */
    method RotateLeftAt(u: int, ghost t: Tree) returns (res: int)
      requires Rep(cells, t) && DistinctIds(t) && t.Node? && t.right.Node? && u == t.id
      modifies this`cells
      ensures res == t.right.id && Rep(cells, RotateLeft(t))
      ensures UnchangedOutside(old(cells), cells, Ids(t)) && cells.Keys == old(cells).Keys
    {
      ghost var Node(a, id, k, Node(b, rid, rk, c, rh), h) := t;
      HeightRead(cells, a);
      HeightRead(cells, b);
      HeightRead(cells, c);
      res := cells[u].right;
      LinkRight(u, cells[res].left);
      LinkLeft(res, u);
      UpdateAt(u);
      UpdateAt(res);
      RotateLeftWrites(old(cells), a, id, k, b, rid, rk, c, rh, h);
      RotatedLeft(old(cells), cells, a, id, k, b, rid, rk, c, rh, h);
    }

    /** The part of the set's invariant that concerns the tree: the cells hold
      * an AVL tree whose root is `root_` and has no parent, every allocated cell
      * is a node of it, and every allocated address is below the allocator's
      * next address. */
    ghost predicate Linked()
      reads this
    {
      Holds(cells, root_, next, tree)
    }

    /** The invariant of the set: the tree, its size, and begin() at the node of
      * the smallest key (end() for an empty set). */
    ghost predicate Valid()
      reads this
    {
      SetInv(cells, root_, size_, begin_, next, tree)
    }

    /** rotate_left_big on the cells: a right rotation of the right child, relinked
      * as the right child, then a left rotation. */
    method RotateLeftBigAt(u: int, ghost t: Tree) returns (res: int)
      requires Rep(cells, t) && DistinctIds(t) && t.Node? && t.right.Node? && t.right.left.Node? && u == t.id
      modifies this`cells
      ensures res == RotateLeftBig(t).id && Rep(cells, RotateLeftBig(t))
      ensures UnchangedOutside(old(cells), cells, Ids(t)) && cells.Keys == old(cells).Keys
    {
      var v := RotateRightAt(cells[u].right, t.right);
      ghost var c1 := cells;
      LinkRight(u, v);
      RelinkRight(old(cells), c1, Ids(t.right), t.left, t.id, t.key, t.right, t.height, RotateRight(t.right));
      ghost var c2 := cells;
      res := RotateLeftAt(u, t.(right := RotateRight(t.right)));
      Within(old(cells), cells, Ids(t.right) + {t.id} + Ids(t), Ids(t));
    }

    /** rotate_right_big on the cells: the mirror image of rotate_left_big. */
    method RotateRightBigAt(u: int, ghost t: Tree) returns (res: int)
      requires Rep(cells, t) && DistinctIds(t) && t.Node? && t.left.Node? && t.left.right.Node? && u == t.id
      modifies this`cells
      ensures res == RotateRightBig(t).id && Rep(cells, RotateRightBig(t))
      ensures UnchangedOutside(old(cells), cells, Ids(t)) && cells.Keys == old(cells).Keys
    {
      var v := RotateLeftAt(cells[u].left, t.left);
      ghost var c1 := cells;
      LinkLeft(u, v);
      RelinkLeft(old(cells), c1, Ids(t.left), t.left, t.id, t.key, t.right, t.height, RotateLeft(t.left));
      res := RotateRightAt(u, t.(left := RotateLeft(t.left)));
      Within(old(cells), cells, Ids(t.left) + {t.id} + Ids(t), Ids(t));
    }

    /** rebalance on the cells: realises Rebalance on the subtree at `u`, choosing
      * the rotation by the balance factors read from the cells. */
    method RebalanceAt(u: int, ghost t: Tree) returns (res: int)
      requires Rep(cells, t) && DistinctIds(t) && CanRebalance(t) && u == t.id
      modifies this`cells
      ensures res == Rebalance(t).id && Rep(cells, Rebalance(t))
      ensures UnchangedOutside(old(cells), cells, Ids(t)) && cells.Keys == old(cells).Keys
    {
      DiffRead(cells, t);
      var d := GetDiff(cells, u);
      if -2 < d < 2 {
        return u;
      }
      if d == -2 {
        DiffRead(cells, t.right);
        if GetDiff(cells, cells[u].right) <= 0 {
          res := RotateLeftAt(u, t);
        } else {
          res := RotateLeftBigAt(u, t);
        }
      } else {
        DiffRead(cells, t.left);
        if GetDiff(cells, cells[u].left) >= 0 {
          res := RotateRightAt(u, t);
        } else {
          res := RotateRightBigAt(u, t);
        }
      }
    }

    /** The tail shared by insert, erase and remove_min: update(u), then
      * rebalance(u). */
    method SettleAt(u: int, ghost n: Tree) returns (res: int)
      requires ChildrenIn(cells, u) && Rep(WithHeight(cells, u), n) && DistinctIds(n) && CanRebalance(n) && u == n.id
      modifies this`cells
      ensures res == Rebalance(n).id && Rep(cells, Rebalance(n))
      ensures UnchangedOutside(WithHeight(old(cells), u), cells, Ids(n)) && cells.Keys == old(cells).Keys
    {
      UpdateAt(u);
      res := RebalanceAt(u, n);
    }

    /** The null case of insert: count the new node, allocate it at the next
      * address as a leaf, and make it begin() when the set was empty or its key
      * is below begin()'s. */
    method NewLeaf(key: int) returns (v: int)
      requires next !in cells && (begin_ == NIL || begin_ in cells)
      modifies this`cells, this`size_, this`begin_, this`next
      ensures v == old(next) && cells == old(cells)[v := Cell(NIL, NIL, NIL, 1, key)]
      ensures next == old(next) + 1 && size_ == old(size_) + 1
      ensures begin_ == if old(begin_) == NIL || key < old(cells)[old(begin_)].value then v else old(begin_)
    {
      size_ := size_ + 1;
      v := next;
      next := next + 1;
      cells := cells[v := Cell(NIL, NIL, NIL, 1, key)];
      if begin_ == NIL || key < cells[begin_].value {
        begin_ := v;
      }
    }

    /** insert on the cells: realises Insert on the subtree at `u`, allocating the
      * new node at the next address; counts it in size_ and makes it begin() when
      * the set was empty or its key is below begin()'s. */
    method InsertAt(u: int, key: int, ghost t: Tree) returns (r: int, ghost added: bool)
      requires Rep(cells, t) && IsAvl(t) && u == Ref(t)
      requires next !in cells && (begin_ == NIL || begin_ in cells)
      modifies this`cells, this`size_, this`begin_, this`next
      ensures Rep(cells, AvlTree.Insert(t, key, old(next))) && r == AvlTree.Insert(t, key, old(next)).id
      ensures UnchangedOutside(old(cells), cells, Ids(t))
      ensures added <==> key !in Keys(t)
      ensures cells.Keys == old(cells).Keys + (if added then {old(next)} else {})
      ensures next == old(next) + (if added then 1 else 0) && size_ == old(size_) + (if added then 1 else 0)
      ensures begin_ == if added && (old(begin_) == NIL || key < old(cells)[old(begin_)].value) then old(next) else old(begin_)
      decreases t, 1
    {
      if u == NIL {
        r := NewLeaf(key);
        return r, true;
      }
      RepCells(cells, t);
      KeySide(t, key);
      if key < cells[u].value {
        r, added := InsertLeftAt(u, key, t);
      } else if cells[u].value < key {
        r, added := InsertRightAt(u, key, t);
      } else {
        return u, false;
      }
    }

    /** insert at a node whose key is above the inserted one. */
    method InsertLeftAt(u: int, key: int, ghost t: Tree) returns (r: int, ghost added: bool)
      requires Rep(cells, t) && IsAvl(t) && t.Node? && u == t.id && key < t.key
      requires next !in cells && (begin_ == NIL || begin_ in cells)
      modifies this`cells, this`size_, this`begin_, this`next
      ensures Rep(cells, AvlTree.Insert(t, key, old(next))) && r == AvlTree.Insert(t, key, old(next)).id
      ensures UnchangedOutside(old(cells), cells, Ids(t))
      ensures added <==> key !in Keys(t)
      ensures cells.Keys == old(cells).Keys + (if added then {old(next)} else {})
      ensures next == old(next) + (if added then 1 else 0) && size_ == old(size_) + (if added then 1 else 0)
      ensures begin_ == if added && (old(begin_) == NIL || key < old(cells)[old(begin_)].value) then old(next) else old(begin_)
      decreases t, 0
    {
      RepCells(cells, t);
      KeySide(t, key);
      var l;
      l, added := InsertAt(cells[u].left, key, t.left);
      r := InsertedLeft(u, l, old(cells), t, key, old(next));
    }

    /** insert at a node whose key is below the inserted one. */
    method InsertRightAt(u: int, key: int, ghost t: Tree) returns (r: int, ghost added: bool)
      requires Rep(cells, t) && IsAvl(t) && t.Node? && u == t.id && t.key < key
      requires next !in cells && (begin_ == NIL || begin_ in cells)
      modifies this`cells, this`size_, this`begin_, this`next
      ensures Rep(cells, AvlTree.Insert(t, key, old(next))) && r == AvlTree.Insert(t, key, old(next)).id
      ensures UnchangedOutside(old(cells), cells, Ids(t))
      ensures added <==> key !in Keys(t)
      ensures cells.Keys == old(cells).Keys + (if added then {old(next)} else {})
      ensures next == old(next) + (if added then 1 else 0) && size_ == old(size_) + (if added then 1 else 0)
      ensures begin_ == if added && (old(begin_) == NIL || key < old(cells)[old(begin_)].value) then old(next) else old(begin_)
      decreases t, 0
    {
      RepCells(cells, t);
      KeySide(t, key);
      var rt;
      rt, added := InsertAt(cells[u].right, key, t.right);
      r := InsertedRight(u, rt, old(cells), t, key, old(next));
    }

    /** The rest of insert once the left subtree is rebuilt: link_left(u, l),
      * update(u) and rebalance(u). */
    method InsertedLeft(u: int, l: int, ghost c0: map<int, Cell>, ghost t: Tree, ghost key: int, ghost cell: nat) returns (r: int)
      requires Rep(c0, t) && IsAvl(t) && t.Node? && u == t.id && key < t.key && cell !in c0
      requires Rep(cells, AvlTree.Insert(t.left, key, cell)) && l == AvlTree.Insert(t.left, key, cell).id && UnchangedOutside(c0, cells, Ids(t.left))
      modifies this`cells
      ensures Rep(cells, AvlTree.Insert(t, key, cell)) && r == AvlTree.Insert(t, key, cell).id
      ensures UnchangedOutside(c0, cells, Ids(t)) && cells.Keys == old(cells).Keys
    {
      ghost var c1 := cells;
      ghost var n := InsertLeftLevel(c0, c1, t, key, cell);
      LinkLeft(u, l);
      ghost var c3 := WithHeight(cells, u);
      r := SettleAt(u, n);
      Compose(c0, c3, cells, Ids(t), Ids(n));
      Within(c0, cells, Ids(t) + Ids(n), Ids(t));
    }

    /** The rest of insert once the right subtree is rebuilt: link_right(u, r),
      * update(u) and rebalance(u). */
    method InsertedRight(u: int, rt: int, ghost c0: map<int, Cell>, ghost t: Tree, ghost key: int, ghost cell: nat) returns (r: int)
      requires Rep(c0, t) && IsAvl(t) && t.Node? && u == t.id && t.key < key && cell !in c0
      requires Rep(cells, AvlTree.Insert(t.right, key, cell)) && rt == AvlTree.Insert(t.right, key, cell).id && UnchangedOutside(c0, cells, Ids(t.right))
      modifies this`cells
      ensures Rep(cells, AvlTree.Insert(t, key, cell)) && r == AvlTree.Insert(t, key, cell).id
      ensures UnchangedOutside(c0, cells, Ids(t)) && cells.Keys == old(cells).Keys
    {
      ghost var c1 := cells;
      ghost var n := InsertRightLevel(c0, c1, t, key, cell);
      LinkRight(u, rt);
      ghost var c3 := WithHeight(cells, u);
      r := SettleAt(u, n);
      Compose(c0, c3, cells, Ids(t), Ids(n));
      Within(c0, cells, Ids(t) + Ids(n), Ids(t));
    }

    /** remove_min on the cells: realises RemoveMin on the subtree at `u`; the
      * cells written are all still in the tree, so the unlinked minimum's cell
      * is left as it was. */
    method RemoveMinAt(u: int, ghost t: Tree) returns (r: int)
      requires Rep(cells, t) && IsAvl(t) && t.Node? && u == t.id
      modifies this`cells
      ensures Rep(cells, RemoveMin(t)) && r == Ref(RemoveMin(t))
      ensures UnchangedOutside(old(cells), cells, Ids(RemoveMin(t))) && cells.Keys == old(cells).Keys
      decreases t
    {
      if cells[u].left == NIL {
        return cells[u].right;
      }
      var l := RemoveMinAt(cells[u].left, t.left);
      ghost var c1 := cells;
      ghost var n := RemoveMinLevel(old(cells), c1, t);
      LinkLeft(u, l);
      ghost var c3 := WithHeight(cells, u);
      r := SettleAt(u, n);
      Compose(old(cells), c3, cells, Ids(RemoveMin(t)), Ids(n));
      Within(old(cells), cells, Ids(RemoveMin(t)) + Ids(n), Ids(RemoveMin(t)));
    }

    /** The node erase matched has a right child: its place is taken by the
      * cell of the right subtree's minimum, which inherits the left subtree and
      * what remove_min leaves of the right one; then the erased cell is
      * deleted. */
    method ReplaceAt(u: int, ghost t: Tree) returns (r: int)
      requires Rep(cells, t) && IsAvl(t) && t.Node? && t.right.Node? && u == t.id
      modifies this`cells
      ensures Rep(cells, Unlink(t)) && r == Ref(Unlink(t))
      ensures UnchangedOutside(old(cells), cells, Ids(t)) && cells.Keys == old(cells).Keys - {u}
    {
      var v := FindMinAt(cells, cells[u].right, t.right);
      var rest := RemoveMinAt(cells[u].right, t.right);
      r := ReplacedAt(u, v, rest, old(cells), t);
    }

    /** The rest of the two-child case once remove_min has run: link_right(v,
      * rest), link_left(v, u->left), update(v), delete u, rebalance(v). */
    method ReplacedAt(u: int, v: int, rest: int, ghost c0: map<int, Cell>, ghost t: Tree) returns (r: int)
      requires Rep(c0, t) && IsAvl(t) && t.Node? && t.right.Node? && u == t.id
      requires Rep(cells, RemoveMin(t.right)) && UnchangedOutside(c0, cells, Ids(RemoveMin(t.right)))
      requires v == FindMin(t.right).id && rest == Ref(RemoveMin(t.right))
      modifies this`cells
      ensures Rep(cells, Unlink(t)) && r == Ref(Unlink(t))
      ensures UnchangedOutside(c0, cells, Ids(t)) && cells.Keys == old(cells).Keys - {u}
    {
      ghost var c1 := cells;
      ghost var n := UnlinkLevel(c0, c1, t);
      LinkRight(v, rest);
      LinkLeft(v, cells[u].left);
      assert cells == Splice(c1, v, rest, Ref(t.left));
      UpdateAt(v);
      cells := cells - {u};
      ghost var c3 := cells;
      r := RebalanceAt(v, n);
      Compose(c0, c3, cells, Ids(t), Ids(n));
      Within(c0, cells, Ids(t) + Ids(n), Ids(t));
    }

    /** iterator::operator++ from the node at `p`: the leftmost node of the
      * right subtree when there is one, otherwise the first ancestor reached
      * from a left child; null (end()) after the largest key. */
    method Next(p: int) returns (q: int)
      requires Linked() && p in Ids(tree)
      ensures IsSuccessor(cells, tree, cells[p].value, q)
    {
      RepSub(cells, tree, p);
      if cells[p].right != NIL {
        DescendRight(cells, tree, p);
        q := cells[p].right;
        ghost var m := FindMin(SubAt(tree, q));
        while cells[q].left != NIL
          invariant q in Ids(tree) && FindMin(SubAt(tree, q)) == m
          decreases AvlTree.Size(SubAt(tree, q))
        {
          DescendLeft(cells, tree, q);
          q := cells[q].left;
        }
        StopLeft(cells, tree, q);
        SubAtInside(tree, p);
        ChildSub(tree, cells[p].right, p);
        NextViaRight(tree, p);
      } else {
        q := p;
        StopRight(cells, tree, p);
        ParentLink(cells, tree, q);
        while cells[q].parent != NIL && cells[cells[q].parent].right == q
          invariant q in Ids(tree) && (cells[q].parent == NIL <==> q == tree.id)
          invariant cells[q].parent == NIL || cells[q].parent in cells
          invariant FindMax(SubAt(tree, q)).key == cells[p].value
          decreases AvlTree.Size(tree) - AvlTree.Size(SubAt(tree, q))
        {
          ClimbFromRight(cells, tree, q);
          q := cells[q].parent;
          SubAtInside(tree, q);
          ParentLink(cells, tree, q);
        }
        if cells[q].parent != NIL {
          ClimbEndedLeft(cells, tree, q);
        }
        q := cells[q].parent;
      }
    }

    /** iterator::operator-- from `p`: from end() the rightmost node of the
      * whole tree; from a node with a left child the rightmost node of that
      * subtree; otherwise the first ancestor reached from a right child, which
      * is null before the smallest key. */
    method Prev(p: int) returns (q: int)
      requires Linked() && (p == NIL ==> tree.Node?) && (p != NIL ==> p in Ids(tree))
      ensures p == NIL ==> q == FindMax(tree).id
      ensures p != NIL ==> IsPredecessor(cells, tree, cells[p].value, q)
    {
      if p == NIL {
        q := root_;
        ghost var m := FindMax(tree);
        while cells[q].right != NIL
          invariant q in Ids(tree) && FindMax(SubAt(tree, q)) == m
          decreases AvlTree.Size(SubAt(tree, q))
        {
          DescendRight(cells, tree, q);
          q := cells[q].right;
        }
        StopRight(cells, tree, q);
        return;
      }
      RepSub(cells, tree, p);
      if cells[p].left != NIL {
        q := cells[p].left;
        ChildSub(tree, q, p);
        ghost var m := FindMax(SubAt(tree, q));
        while cells[q].right != NIL
          invariant q in Ids(tree) && FindMax(SubAt(tree, q)) == m
          decreases AvlTree.Size(SubAt(tree, q))
        {
          DescendRight(cells, tree, q);
          q := cells[q].right;
        }
        StopRight(cells, tree, q);
        PrevViaLeft(tree, p);
      } else {
        q := p;
        StopLeft(cells, tree, p);
        ParentLink(cells, tree, q);
        while cells[q].parent != NIL && cells[cells[q].parent].left == q
          invariant q in Ids(tree) && (cells[q].parent == NIL <==> q == tree.id)
          invariant cells[q].parent == NIL || cells[q].parent in cells
          invariant FindMin(SubAt(tree, q)).key == cells[p].value
          decreases AvlTree.Size(tree) - AvlTree.Size(SubAt(tree, q))
        {
          ClimbFromLeft(cells, tree, q);
          q := cells[q].parent;
          SubAtInside(tree, q);
          ParentLink(cells, tree, q);
        }
        if cells[q].parent != NIL {
          ClimbEndedRight(cells, tree, q);
        }
        q := cells[q].parent;
      }
    }

    /** erase on the cells: realises Erase on the subtree at `u`, which is a
      * subtree of the set's tree; the erased cell is deleted, counted out of
      * size_, and when it was begin() begin() first steps to its successor in
      * the tree as it was. */
    method EraseAt(u: int, key: int, ghost t: Tree) returns (r: int, ghost removed: bool, ghost cell: int)
      requires Valid() && IsSub(t, tree) && Rep(cells, t) && IsAvl(t) && u == Ref(t)
      modifies this`cells, this`size_, this`begin_
      ensures Rep(cells, AvlTree.Erase(t, key)) && r == Ref(AvlTree.Erase(t, key))
      ensures UnchangedOutside(old(cells), cells, Ids(t))
      ensures removed <==> key in Keys(t)
      ensures cell == Ref(AvlTree.Find(t, key))
      ensures cells.Keys == old(cells).Keys - (if removed then {cell} else {})
      ensures size_ == old(size_) - (if removed then 1 else 0)
      ensures BeginStep(old(cells), tree, key, removed && old(begin_) == cell, old(begin_), begin_)
      decreases t, 1
    {
      if u == NIL {
        return NIL, false, NIL;
      }
      if key < cells[u].value {
        r, removed, cell := EraseLeftAt(u, key, t);
      } else if cells[u].value < key {
        r, removed, cell := EraseRightAt(u, key, t);
      } else {
        r := UnlinkAt(u, t);
        removed, cell := true, u;
      }
    }

    /** erase at a node whose key is above the erased one. */
    method EraseLeftAt(u: int, key: int, ghost t: Tree) returns (r: int, ghost removed: bool, ghost cell: int)
      requires Valid() && IsSub(t, tree) && Rep(cells, t) && IsAvl(t) && t.Node? && u == t.id && key < t.key
      modifies this`cells, this`size_, this`begin_
      ensures Rep(cells, AvlTree.Erase(t, key)) && r == Ref(AvlTree.Erase(t, key))
      ensures UnchangedOutside(old(cells), cells, Ids(t))
      ensures removed <==> key in Keys(t)
      ensures cell == Ref(AvlTree.Find(t, key))
      ensures cells.Keys == old(cells).Keys - (if removed then {cell} else {})
      ensures size_ == old(size_) - (if removed then 1 else 0)
      ensures BeginStep(old(cells), tree, key, removed && old(begin_) == cell, old(begin_), begin_)
      decreases t, 0
    {
      SubChildren(tree, t);
      KeySide(t, key);
      assert AvlTree.Find(t, key) == AvlTree.Find(t.left, key);
      var l;
      l, removed, cell := EraseAt(cells[u].left, key, t.left);
      r := ErasedLeft(u, l, old(cells), t, key);
    }

    /** erase at a node whose key is below the erased one. */
    method EraseRightAt(u: int, key: int, ghost t: Tree) returns (r: int, ghost removed: bool, ghost cell: int)
      requires Valid() && IsSub(t, tree) && Rep(cells, t) && IsAvl(t) && t.Node? && u == t.id && t.key < key
      modifies this`cells, this`size_, this`begin_
      ensures Rep(cells, AvlTree.Erase(t, key)) && r == Ref(AvlTree.Erase(t, key))
      ensures UnchangedOutside(old(cells), cells, Ids(t))
      ensures removed <==> key in Keys(t)
      ensures cell == Ref(AvlTree.Find(t, key))
      ensures cells.Keys == old(cells).Keys - (if removed then {cell} else {})
      ensures size_ == old(size_) - (if removed then 1 else 0)
      ensures BeginStep(old(cells), tree, key, removed && old(begin_) == cell, old(begin_), begin_)
      decreases t, 0
    {
      SubChildren(tree, t);
      KeySide(t, key);
      assert AvlTree.Find(t, key) == AvlTree.Find(t.right, key);
      var rt;
      rt, removed, cell := EraseAt(cells[u].right, key, t.right);
      r := ErasedRight(u, rt, old(cells), t, key);
    }

    /** The rest of erase once the left subtree is rebuilt: link_left(u, l),
      * update(u) and rebalance(u). */
    method ErasedLeft(u: int, l: int, ghost c0: map<int, Cell>, ghost t: Tree, ghost key: int) returns (r: int)
      requires Rep(c0, t) && IsAvl(t) && t.Node? && u == t.id && key < t.key
      requires Rep(cells, AvlTree.Erase(t.left, key)) && l == Ref(AvlTree.Erase(t.left, key)) && UnchangedOutside(c0, cells, Ids(t.left))
      modifies this`cells
      ensures Rep(cells, AvlTree.Erase(t, key)) && r == Ref(AvlTree.Erase(t, key))
      ensures UnchangedOutside(c0, cells, Ids(t)) && cells.Keys == old(cells).Keys
    {
      ghost var c1 := cells;
      ghost var n := EraseLeftLevel(c0, c1, t, key);
      LinkLeft(u, l);
      ghost var c3 := WithHeight(cells, u);
      r := SettleAt(u, n);
      Compose(c0, c3, cells, Ids(t), Ids(n));
      Within(c0, cells, Ids(t) + Ids(n), Ids(t));
    }

    /** The rest of erase once the right subtree is rebuilt: link_right(u, r),
      * update(u) and rebalance(u). */
    method ErasedRight(u: int, rt: int, ghost c0: map<int, Cell>, ghost t: Tree, ghost key: int) returns (r: int)
      requires Rep(c0, t) && IsAvl(t) && t.Node? && u == t.id && t.key < key
      requires Rep(cells, AvlTree.Erase(t.right, key)) && rt == Ref(AvlTree.Erase(t.right, key)) && UnchangedOutside(c0, cells, Ids(t.right))
      modifies this`cells
      ensures Rep(cells, AvlTree.Erase(t, key)) && r == Ref(AvlTree.Erase(t, key))
      ensures UnchangedOutside(c0, cells, Ids(t)) && cells.Keys == old(cells).Keys
    {
      ghost var c1 := cells;
      ghost var n := EraseRightLevel(c0, c1, t, key);
      LinkRight(u, rt);
      ghost var c3 := WithHeight(cells, u);
      r := SettleAt(u, n);
      Compose(c0, c3, cells, Ids(t), Ids(n));
      Within(c0, cells, Ids(t) + Ids(n), Ids(t));
    }

    /** The node erase matched: count it out of size_, step begin() past it when
      * it is begin(), then splice in its left child when it has no right child,
      * or replace it by the minimum of its right subtree. */
    method UnlinkAt(u: int, ghost t: Tree) returns (r: int)
      requires Valid() && IsSub(t, tree) && Rep(cells, t) && IsAvl(t) && t.Node? && u == t.id
      modifies this`cells, this`size_, this`begin_
      ensures Rep(cells, Unlink(t)) && r == Ref(Unlink(t))
      ensures UnchangedOutside(old(cells), cells, Ids(t)) && cells.Keys == old(cells).Keys - {u}
      ensures size_ == old(size_) - 1
      ensures BeginStep(old(cells), tree, t.key, old(begin_) == u, old(begin_), begin_)
    {
      size_ := size_ - 1;
      if u == begin_ {
        begin_ := Next(begin_);
      }
      if cells[u].right == NIL {
        r := cells[u].left;
        cells := cells - {u};
        Untouched(old(cells), cells, t.left, {u});
      } else {
        r := ReplaceAt(u, t);
      }
    }

    // -------------------------------------------------------------------------
    // The public interface
    // -------------------------------------------------------------------------

    /** The default constructor: the empty set. */
    constructor ()
      ensures Valid() && tree == Nil && size_ == 0
    {
      cells := map[];
      root_ := NIL;
      size_ := 0;
      begin_ := NIL;
      next := 0;
      tree := Nil;
    }

    /** The facade's last step after insert and erase: install the subtree root
      * the engine returned as root_, with no parent. */
    method SetRoot(r: int, ghost n: Tree)
      requires r == NIL || r in cells
      requires SetInv(if r == NIL then cells else cells[r := cells[r].(parent := NIL)], r, size_, begin_, next, n)
      modifies this`cells, this`root_, this`tree
      ensures Valid() && tree == n && root_ == r
      ensures cells == if r == NIL then old(cells) else old(cells)[r := old(cells)[r].(parent := NIL)]
    {
      if r != NIL {
        cells := cells[r := cells[r].(parent := NIL)];
      }
      root_ := r;
      tree := n;
    }

    /** copy: a new cell for every node of the subtree of `src` at `u`, at the
      * node's own address in this set's heap, holding the node's height and
      * value with null links, then linked to the copies of its children. */
    method CopyAt(src: map<int, Cell>, u: int, ghost t: Tree) returns (v: int)
      requires Rep(src, t) && DistinctIds(t) && u == Ref(t)
      requires forall i :: i in Ids(t) ==> i !in cells
      modifies this`cells
      ensures v == u && Rep(cells, t) && cells.Keys == old(cells).Keys + Ids(t)
      ensures UnchangedOutside(old(cells), cells, {})
      ensures t.Node? ==> cells[t.id].parent == NIL
      decreases t
    {
      if u == NIL {
        return NIL;
      }
      cells := cells[u := Cell(NIL, NIL, NIL, src[u].height, src[u].value)];
      ghost var c1 := cells;
      var l := CopyAt(src, src[u].left, t.left);
      ghost var c2 := cells;
      LinkLeft(u, l);
      ghost var c3 := cells;
      var r := CopyAt(src, src[u].right, t.right);
      ghost var c4 := cells;
      LinkRight(u, r);
      CopiedCells(old(cells), c1, c2, c3, c4, cells, t);
      CopiedNode(c1, c2, c3, c4, cells, t);
      v := u;
    }

    /** The copy constructor and assignment, once this set's heap is empty:
      * copy the other set's tree, take over its size and find begin() as the
      * minimum of the copy. */
    method CopyFrom(other: Set)
      requires other.Valid() && other != this && cells == map[]
      modifies this
      ensures Valid() && tree == other.tree && cells == other.cells && size_ == other.size_
    {
      var r := CopyAt(other.cells, other.root_, other.tree);
      SameCells(other.cells, cells, other.tree);
      root_ := r;
      tree := other.tree;
      size_ := other.size_;
      next := other.next;
      begin_ := if r == NIL then NIL else FindMinAt(cells, r, tree);
    }

    /** The copy constructor: a set holding the same tree in a heap of its own. */
    constructor Copy(other: Set)
      requires other.Valid()
      ensures Valid() && tree == other.tree && cells == other.cells && size_ == other.size_
    {
      cells := map[];
      new;
      CopyFrom(other);
    }

    /** operator=: free this set's nodes and copy the other's; assigning a set
      * to itself changes nothing. */
    method Assign(other: Set)
      requires Valid() && other.Valid()
      modifies this
      ensures Valid() && tree == old(other.tree) && cells == old(other.cells) && size_ == old(other.size_)
    {
      if other != this {
        cells := map[];
        CopyFrom(other);
      }
    }

    /** insert: store `key`.  A new key gets a fresh cell and is counted in
      * size_; a stored key changes nothing.  begin() keeps pointing at the
      * smallest key. */
    method Insert(key: int)
      requires Valid()
      modifies this
      ensures Valid()
      ensures tree == AvlTree.Insert(old(tree), key, old(next))
      ensures Keys(tree) == Keys(old(tree)) + {key}
      ensures key in Keys(old(tree)) ==>
                cells == old(cells) && root_ == old(root_) && size_ == old(size_) && begin_ == old(begin_)
      ensures key !in Keys(old(tree)) ==> size_ == old(size_) + 1 && cells.Keys == old(cells).Keys + {old(next)}
    {
      ghost var t := tree;
      InsertedBegin(cells, t, key, next, begin_);
      var r;
      ghost var added;
      r, added := InsertAt(root_, key, t);
      ghost var n := InsertedValid(old(cells), cells, t, key, old(next), r, old(root_), old(size_), old(begin_), size_, begin_);
      SetRoot(r, n);
    }

    /** erase: remove `key`.  A stored key loses its cell and is counted out of
      * size_, with begin() stepped past it first when it was the smallest; an
      * absent key changes nothing. */
    method Erase(key: int)
      requires Valid()
      modifies this
      ensures Valid()
      ensures tree == AvlTree.Erase(old(tree), key)
      ensures Keys(tree) == Keys(old(tree)) - {key}
      ensures key !in Keys(old(tree)) ==>
                cells == old(cells) && root_ == old(root_) && size_ == old(size_) && begin_ == old(begin_)
      ensures key in Keys(old(tree)) ==>
                size_ == old(size_) - 1 && cells.Keys == old(cells).Keys - {Ref(AvlTree.Find(old(tree), key))}
    {
      ghost var t := tree;
      var r;
      ghost var removed, cell;
      r, removed, cell := EraseAt(root_, key, t);
      ghost var n := ErasedValid(old(cells), cells, t, key, next, r, old(root_), old(size_), old(begin_), size_, begin_);
      SetRoot(r, n);
    }

    /** size: the number of stored keys. */
    function Size(): (n: nat)
      reads this
      requires Valid()
      ensures n == |Keys(tree)|
    {
      SizeIsCard(tree);
      size_
    }

    /** empty: whether no key is stored. */
    function Empty(): (b: bool)
      reads this
      requires Valid()
      ensures b <==> Keys(tree) == {}
    {
      size_ == 0
    }

    /** begin: the position of the smallest key, end() for the empty set. */
    function Begin(): (it: int)
      reads this
      requires Valid()
      ensures it == NIL <==> Keys(tree) == {}
      ensures it != NIL ==> it in cells && cells[it].value in Keys(tree) && NoneBelow(Keys(tree), cells[it].value)
    {
      MinAtBegin(cells, tree, begin_);
      begin_
    }

    /** end: the past-the-end position, the null pointer.  It is no cell of
      * the heap, and begin() equals it exactly for the empty set. */
    function End(): (e: int)
      reads this
      ensures Valid() ==> e !in cells && (e == begin_ <==> Keys(tree) == {})
    {
      NIL
    }

    /** iterator::operator*: the key at a position other than end(). */
    function Deref(it: int): (v: int)
      reads this
      requires Valid() && it != NIL && it in cells
      ensures v in Keys(tree)
    {
      StoredValue(cells, tree, it);
      cells[it].value
    }

    /** find: the position of `key`, end() when it is not stored. */
    function Find(key: int): (it: int)
      reads this
      requires Valid()
      ensures it != NIL <==> key in Keys(tree)
      ensures it != NIL ==> it in cells && cells[it].value == key
    {
      FindAt(cells, root_, key, tree)
    }

    /** lower_bound: the position of the smallest key not below `key`, end()
      * when every key is below it.  The descent's stopping node is stepped
      * once with ++ when it holds a smaller key. */
    method LowerBound(key: int) returns (it: int)
      requires Valid()
      ensures it == NIL <==> forall x :: x in Keys(tree) ==> x < key
      ensures it != NIL ==> it in cells && cells[it].value in Keys(tree) && key <= cells[it].value &&
                            forall x :: x in Keys(tree) && key <= x ==> cells[it].value <= x
    {
      if size_ == 0 {
        assert Keys(tree) == {};
        return NIL;
      }
      var p := LowerBoundAt(cells, root_, key, tree);
      LowerBoundNodeIsNeighbour(tree, key);
      if cells[p].value < key {
        it := Next(p);
        BelowThenNext(Keys(tree), key, cells[p].value);
        if it != NIL {
          assert key <= cells[it].value;
        }
      } else {
        it := p;
        assert cells[p].value in Keys(tree);
      }
    }
  }
}
