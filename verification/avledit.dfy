/** The three ways a node enters or leaves the AVL memtable, on snapshots: hanging a
    new leaf, putting one node in another's place, cutting out a node with one child. */
module AvlEdit {
  import opened Pairs
  import opened AvlTree
  import opened AvlSearch

  /** Everything Focus says about sets of nodes, once and for all. */
  lemma Apart(c: Ctx, t: Tree, m: Cells, root: Node?)
    requires Focus(c, t, m, root)
    ensures CDistinct(c) && CLinks(c, RootOf(t), m)
    ensures forall k :: k in CNodes(c) ==> k in m && k !in Nodes(t)
    ensures !c.Top? ==> c.n in CNodes(c)
    ensures t.Bin? ==>
      && Links(t.l, t.n, m) && Links(t.r, t.n, m) && Distinct(t.l) && Distinct(t.r)
      && t.n !in Nodes(t.l) && t.n !in Nodes(t.r) && t.n !in CNodes(c)
      && RootOf(t.l) !in Nodes(t.r) && RootOf(t.r) !in Nodes(t.l)
      && RootOf(t.l) !in CNodes(c) && RootOf(t.r) !in CNodes(c)
      && (RootOf(t.l) != null ==> RootOf(t.l) in m) && (RootOf(t.r) != null ==> RootOf(t.r) in m)
      && RootOf(t.l) != t.n && RootOf(t.r) != t.n && (t.l.Bin? ==> RootOf(t.l) != RootOf(t.r))
    ensures !c.Top? && t.Bin? ==> c.n !in Nodes(t.l) && c.n !in Nodes(t.r) && c.n != t.n
    ensures t.Bin? ==> Nodes(t) == Nodes(t.l) + {t.n} + Nodes(t.r)
    ensures m.Keys == CNodes(c) + Nodes(t) && CNodes(c) !! Nodes(t)
  {
    if t.Bin? {
      RootIn(t.l);
      RootIn(t.r);
    }
    ParentIn(c);
  }

  /** No pointer leads out of the snapshot. */
  predicate ClosedCells(m: Cells, root: Node?) {
    && (root != null ==> root in m)
    && forall k :: k in m ==>
         && (m[k].l != null ==> m[k].l in m)
         && (m[k].r != null ==> m[k].r in m)
         && (m[k].p != null ==> m[k].p in m)
  }

  lemma ClosedPut(m: Cells, root: Node?, k: Node, cell: Cell)
    requires ClosedCells(m, root) && k in m
    requires (cell.l != null ==> cell.l in m) && (cell.r != null ==> cell.r in m) && (cell.p != null ==> cell.p in m)
    ensures ClosedCells(m[k := cell], root)
  {
  }

  lemma {:induction false} LinksClosed(t: Tree, p: Node?, m: Cells, k: Node)
    requires Links(t, p, m) && k in Nodes(t) && (p != null ==> p in m)
    ensures k in m && (m[k].l != null ==> m[k].l in m) && (m[k].r != null ==> m[k].r in m) && (m[k].p != null ==> m[k].p in m)
  {
    if k == t.n {
      assert t.l.Bin? ==> t.l.n in m;
      assert t.r.Bin? ==> t.r.n in m;
    } else if k in Nodes(t.l) {
      LinksClosed(t.l, t.n, m, k);
    } else {
      LinksClosed(t.r, t.n, m, k);
    }
  }

  lemma FocusClosed(c: Ctx, t: Tree, m: Cells, root: Node?)
    requires Focus(c, t, m, root)
    ensures ClosedCells(m, root)
  {
    PlugFocus(c, t, m, root);
    var s := Plug(c, t);
    assert Nodes(s) == m.Keys;
    RootIn(s);
    forall k | k in m
      ensures (m[k].l != null ==> m[k].l in m) && (m[k].r != null ==> m[k].r in m) && (m[k].p != null ==> m[k].p in m)
    {
      LinksClosed(s, null, m, k);
    }
  }

  // ---------- a new leaf ----------

  function Leaf(k: Node, x: Pair): Tree { Bin(Nil, k, x, 0, Nil) }

  lemma LeafBalanced(k: Node, x: Pair)
    ensures Avl(Leaf(k, x))
  {
  }

  function Hang(c: Ctx, m: Cells, k: Node?): (m': Cells)
    ensures m'.Keys == m.Keys
  {
    match c
    case Top => m
    case Lt(_, n, _, _, _) => PutL(m, n, k)
    case Rt(_, _, n, _, _) => PutR(m, n, k)
  }

  lemma AttachFocus(c: Ctx, k: Node, x: Pair, m: Cells, root: Node?)
    requires Focus(c, Nil, m, root) && k !in m
    ensures Focus(c, Leaf(k, x), Hang(c, m[k := Cell(null, null, ParentOf(c), 0, x)], k), if c.Top? then k else root)
  {
    var m' := Hang(c, m[k := Cell(null, null, ParentOf(c), 0, x)], k);
    FocusCells(c, Nil, m, root);
    Apart(c, Nil, m, root);
    Rehang(c, null, k, m, m', ParentOf(c), null, null, null);
    assert Nodes(Leaf(k, x)) == {k};
  }

  /** A new leaf in the hole of d, seen from its parent. */
  lemma HangReady(d: Ctx, k: Node, x: Pair, m: Cells, root: Node?)
    requires Focus(d, Nil, m, root) && !d.Top? && k !in m
    ensures var m1 := m[k := Cell(null, null, d.n, 0, x)];
      var m2 := if d.Lt? then PutL(m1, d.n, k) else PutR(m1, d.n, k);
      && Focus(d.up, UpTree(d, Leaf(k, x)), m2, root) && d.n in m && d.n in m2 && m2[d.n].b == d.b
      && UpTree(d, Leaf(k, x)).Bin? && UpTree(d, Leaf(k, x)).n == d.n
  {
    var m1 := m[k := Cell(null, null, d.n, 0, x)];
    AttachFocus(d, k, x, m, root);
    FocusCells(d, Nil, m, root);
    hide Focus;
    FocusUp(d, Leaf(k, x), Hang(d, m1, k), root);
  }

  // ---------- one node in place of another ----------

  /** copyLinks_(k, n), then n cleared and released. */
  function CopyCells(m: Cells, k: Node, n: Node): Cells {
    var s := At(m, n);
    var m1 := m[k := Cell(s.l, s.r, s.p, s.b, At(m, k).x)];
    FixAll(m1, k, n) - {n}
  }

  function CopyRoot(m: Cells, root: Node?, k: Node, n: Node): Node? {
    if At(m, n).p == null then k else root
  }

  lemma CopyWrites(m: Cells, k: Node, n: Node, l: Node?, r: Node?, q: Node?)
    requires n in m && k in m && n != k && m[n].l == l && m[n].r == r && m[n].p == q
    requires l != null ==> l in m && l != n && l != k && l != q && l != r
    requires r != null ==> r in m && r != n && r != k && r != q
    requires q != null ==> q in m && q != n && q != k
    ensures var m' := CopyCells(m, k, n);
      && m'.Keys == m.Keys - {n}
      && m'[k] == Cell(l, r, q, m[n].b, m[k].x)
      && (l != null ==> m'[l] == m[l].(p := k))
      && (r != null ==> m'[r] == m[r].(p := k))
      && (q != null ==> m'[q] == if m[q].l == n then m[q].(l := k) else m[q].(r := k))
      && (forall j :: j in m && j != n && j != k && j != l && j != r && j != q ==> j in m' && m'[j] == m[j])
  {
  }

  lemma CopyFocus(c: Ctx, t: Tree, k: Node, y: Pair, m: Cells, root: Node?)
    requires Focus(c, t, m, root) && t.Bin? && k !in m
    ensures var m0 := m[k := Cell(null, null, t.n, 0, y)];
      Focus(c, Stead(t, k, y), CopyCells(m0, k, t.n), CopyRoot(m0, root, k, t.n))
  {
    var m0 := m[k := Cell(null, null, t.n, 0, y)];
    var m' := CopyCells(m0, k, t.n);
    Apart(c, t, m, root);
    FocusCells(c, t, m, root);
    hide Focus;
    hide Nodes;
    hide CNodes;
    hide Distinct;
    hide CDistinct;
    hide CLinks;
    hide CopyCells;
    CopyWrites(m0, k, t.n, RootOf(t.l), RootOf(t.r), ParentOf(c));
    CopyLinks(c, t, k, y, m, m');
    CopyNodes(c, t, k, y, m, m', root);
  }

  lemma CopyLinks(c: Ctx, t: Tree, k: Node, y: Pair, m: Cells, m': Cells)
    requires t.Bin? && k !in m && k in m'
    requires CDistinct(c) && CLinks(c, t.n, m)
    requires Links(t.l, t.n, m) && Links(t.r, t.n, m) && Distinct(t.l) && Distinct(t.r)
    requires t.n !in CNodes(c) && RootOf(t.l) !in CNodes(c) && RootOf(t.r) !in CNodes(c)
    requires t.n !in Nodes(t.l) && RootOf(t.r) !in Nodes(t.l) && ParentOf(c) !in Nodes(t.l)
    requires t.n !in Nodes(t.r) && RootOf(t.l) !in Nodes(t.r) && ParentOf(c) !in Nodes(t.r)
    requires Same(m, m', t.n, RootOf(t.l), RootOf(t.r), ParentOf(c))
    requires m'[k] == Cell(RootOf(t.l), RootOf(t.r), ParentOf(c), t.b, y)
    requires t.l.Bin? ==> t.l.n in m && t.l.n in m' && m'[t.l.n] == m[t.l.n].(p := k)
    requires t.r.Bin? ==> t.r.n in m && t.r.n in m' && m'[t.r.n] == m[t.r.n].(p := k)
    requires !c.Top? ==> c.n in m && c.n in m'
    requires Rehung(c, k, m, m')
    ensures CLinks(c, k, m') && Links(Stead(t, k, y), ParentOf(c), m')
  {
    var w0, w1, w2, w3 := t.n, RootOf(t.l), RootOf(t.r), ParentOf(c);
    Rehang(c, t.n, k, m, m', w0, w1, w2, w3);
    Reparent(t.l, t.n, k, m, m', w0, w1, w2, w3);
    Reparent(t.r, t.n, k, m, m', w0, w1, w2, w3);
  }

  lemma CopyNodes(c: Ctx, t: Tree, k: Node, y: Pair, m: Cells, m': Cells, root: Node?)
    requires Focus(c, t, m, root) && t.Bin? && k !in m
    requires m'.Keys == m.Keys + {k} - {t.n}
    ensures Distinct(Stead(t, k, y)) && CDistinct(c) && CNodes(c) !! Nodes(Stead(t, k, y))
    ensures m'.Keys == CNodes(c) + Nodes(Stead(t, k, y))
    ensures CLinks(c, k, m') && Links(Stead(t, k, y), ParentOf(c), m') ==>
      Focus(c, Stead(t, k, y), m', if c.Top? then k else root)
  {
    FocusCells(c, t, m, root);
  }

  // ---------- a node with at most one child cut out ----------

  function OnlyChild(t: Tree): Tree
    requires t.Bin?
  {
    if t.l.Bin? then t.l else t.r
  }

  function CutCells(c: Ctx, t: Tree, m: Cells): Cells
    requires t.Bin?
  {
    var ch := RootOf(OnlyChild(t));
    Hang(c, PutP(m, ch, ParentOf(c)), ch) - {t.n}
  }

  lemma CutFocus(c: Ctx, t: Tree, m: Cells, root: Node?)
    requires Focus(c, t, m, root) && t.Bin? && (t.l.Nil? || t.r.Nil?)
    ensures Focus(c, OnlyChild(t), CutCells(c, t, m), if c.Top? then RootOf(OnlyChild(t)) else root)
  {
    var ch := OnlyChild(t);
    var m' := CutCells(c, t, m);
    Apart(c, t, m, root);
    FocusCells(c, t, m, root);
    assert m'.Keys == CNodes(c) + Nodes(ch);
    assert Same(m, m', t.n, RootOf(ch), ParentOf(c), null);
    hide Nodes;
    hide CNodes;
    hide Distinct;
    hide CDistinct;
    hide CLinks;
    Rehang(c, t.n, RootOf(ch), m, m', t.n, RootOf(ch), ParentOf(c), null);
    Reparent(ch, t.n, ParentOf(c), m, m', t.n, RootOf(ch), ParentOf(c), null);
  }

  // ---------- what the edits do to the stored pairs ----------

  lemma PlugBytes(c: Ctx, t: Tree)
    ensures TotalBytes(Inorder(Plug(c, t))) == TotalBytes(Before(c)) + TotalBytes(Inorder(t)) + TotalBytes(After(c))
  {
    PlugInorder(c, t);
    TotalBytesConcat(Before(c), Inorder(t));
    TotalBytesConcat(Before(c) + Inorder(t), After(c));
  }

  lemma LeafContents(c: Ctx, k: Node, x: Pair)
    requires Sorted(Inorder(Plug(c, Nil))) && KeysValid(Inorder(Plug(c, Nil))) && Surrounds(c, x.key) && |x.key| > 0
    ensures var s, s' := Inorder(Plug(c, Nil)), Inorder(Plug(c, Leaf(k, x)));
      && Sorted(s') && KeysValid(s') && |s'| == |s| + 1 && TotalBytes(s') == TotalBytes(s) + x.Bytes()
      && x.key !in MapOf(s) && MapOf(s') == MapOf(s)[x.key := x]
  {
    hide Sorted;
    hide KeysValid;
    hide Fits;
    hide Plug;
    hide TotalBytes;
    var a, b := Before(c), After(c);
    NotStored(c, x.key);
    PlugInorder(c, Leaf(k, x));
    assert Inorder(Leaf(k, x)) == [x];
    hide Inorder;
    AddedContents(a, x, b);
  }

  lemma SteadContents(c: Ctx, t: Tree, k: Node, y: Pair)
    requires t.Bin? && Sorted(Inorder(Plug(c, t))) && KeysValid(Inorder(Plug(c, t))) && y.key == t.x.key
    ensures var s, s' := Inorder(Plug(c, t)), Inorder(Plug(c, Stead(t, k, y)));
      && Sorted(s') && KeysValid(s') && |s'| == |s| && TotalBytes(s') == TotalBytes(s) - t.x.Bytes() + y.Bytes()
      && TotalBytes(s) >= t.x.Bytes()
      && t.x.key in MapOf(s) && MapOf(s)[t.x.key] == t.x && MapOf(s') == MapOf(s)[y.key := y]
  {
    hide Sorted;
    hide KeysValid;
    hide Plug;
    hide TotalBytes;
    hide Inorder;
    hide Stead;
    PlugInorder(c, t);
    PlugInorder(c, Stead(t, k, y));
    InorderParts(t, k, y);
    Around(Before(c), Inorder(t.l), t.x, Inorder(t.r), After(c));
    Around(Before(c), Inorder(t.l), y, Inorder(t.r), After(c));
    ReplacedContents(Before(c) + Inorder(t.l), t.x, y, Inorder(t.r) + After(c));
  }

  lemma InorderParts(t: Tree, k: Node, y: Pair)
    requires t.Bin?
    ensures Inorder(t) == Inorder(t.l) + [t.x] + Inorder(t.r)
    ensures Inorder(Stead(t, k, y)) == Inorder(t.l) + [y] + Inorder(t.r)
  {
  }

  lemma Around(a: seq<Pair>, i: seq<Pair>, x: Pair, j: seq<Pair>, b: seq<Pair>)
    ensures a + (i + [x] + j) + b == (a + i) + [x] + (j + b)
  {
  }

  lemma AddedContents(a: seq<Pair>, x: Pair, b: seq<Pair>)
    requires Sorted(a + b) && KeysValid(a + b) && Fits(a, x.key, b) && |x.key| > 0
    ensures var s := a + [x] + b;
      && Sorted(s) && KeysValid(s) && |s| == |a + b| + 1 && TotalBytes(s) == TotalBytes(a + b) + x.Bytes()
      && x.key !in MapOf(a + b) && MapOf(s) == MapOf(a + b)[x.key := x]
  {
    hide Sorted;
    hide Fits;
    hide TotalBytes;
    MapInsert(a, x, b);
    BytesAround(a, x, b);
    assert forall p :: p in a + [x] + b ==> p in a + b || p == x;
  }

  lemma ReplacedContents(a: seq<Pair>, x: Pair, y: Pair, b: seq<Pair>)
    requires Sorted(a + [x] + b) && KeysValid(a + [x] + b) && x.key == y.key
    ensures var s, s' := a + [x] + b, a + [y] + b;
      && Sorted(s') && KeysValid(s') && |s'| == |s|
      && TotalBytes(s) >= x.Bytes() && TotalBytes(s') == TotalBytes(s) - x.Bytes() + y.Bytes()
      && x.key in MapOf(s) && MapOf(s)[x.key] == x && MapOf(s') == MapOf(s)[y.key := y]
  {
    hide Sorted;
    hide TotalBytes;
    MapReplace(a, x, y, b);
    BytesAround(a, x, b);
    BytesAround(a, y, b);
    assert x in a + [x] + b;
    assert forall p :: p in a + [y] + b ==> p in a + [x] + b || p == y;
  }

  lemma BytesAround(a: seq<Pair>, x: Pair, b: seq<Pair>)
    ensures TotalBytes(a + [x] + b) == TotalBytes(a + b) + x.Bytes()
  {
    TotalBytesConcat(a, [x]);
    TotalBytesConcat(a + [x], b);
    TotalBytesConcat(a, b);
    assert [x][..0] == [];
  }

  lemma RemovedContents(a: seq<Pair>, x: Pair, b: seq<Pair>)
    requires Sorted(a + [x] + b) && KeysValid(a + [x] + b)
    ensures Sorted(a + b) && KeysValid(a + b)
    ensures TotalBytes(a + b) == TotalBytes(a + [x] + b) - x.Bytes()
    ensures x.key in MapOf(a + [x] + b) && MapOf(a + b) == MapOf(a + [x] + b) - {x.key}
  {
    SortedSplit(a, x, b);
    MapInsert(a, x, b);
    BytesAround(a, x, b);
    assert forall p :: p in a + b ==> p in a + [x] + b;
  }
}
