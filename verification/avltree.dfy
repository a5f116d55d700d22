/** The AVL memtable as mathematics: nodes, the tree of nodes that the pointers
    spell out, and the zipper (path from a subtree up to the root) that the
    non-recursive code of hm4/avllist.cc walks along. Nothing here reads the heap. */
module AvlTree {
  import opened Pairs

  class Node {
    var l: Node?
    var r: Node?
    var p: Node?
    var balance: int
    var data: Pair

    constructor (parent: Node?, x: Pair)
      ensures l == null && r == null && p == parent && balance == 0 && data == x
    {
      l, r, p, balance, data := null, null, parent, 0, x;
    }
  }

  /** The fields of one node. */
  datatype Cell = Cell(l: Node?, r: Node?, p: Node?, b: int, x: Pair)

  /** A snapshot of the fields of a set of nodes. */
  type Cells = map<Node, Cell>

  datatype Tree = Nil | Bin(l: Tree, n: Node, x: Pair, b: int, r: Tree)

  /** A tree with a hole: Lt when the hole is the left child of n. */
  datatype Ctx =
    | Top
    | Lt(up: Ctx, n: Node, x: Pair, b: int, r: Tree)
    | Rt(up: Ctx, l: Tree, n: Node, x: Pair, b: int)

  function Plug(c: Ctx, t: Tree): Tree {
    match c
    case Top => t
    case Lt(up, n, x, b, r) => Plug(up, Bin(t, n, x, b, r))
    case Rt(up, l, n, x, b) => Plug(up, Bin(l, n, x, b, t))
  }

  function RootOf(t: Tree): Node? {
    if t.Nil? then null else t.n
  }

  function ParentOf(c: Ctx): Node? {
    if c.Top? then null else c.n
  }

  /** Root of Plug(c, t) when the root of t is q. */
  function TopPtr(c: Ctx, q: Node?): Node? {
    match c
    case Top => q
    case Lt(up, n, _, _, _) => TopPtr(up, n)
    case Rt(up, _, n, _, _) => TopPtr(up, n)
  }

  // ---------- contents ----------

  function Nodes(t: Tree): set<Node> {
    match t
    case Nil => {}
    case Bin(l, n, _, _, r) => Nodes(l) + {n} + Nodes(r)
  }

  function CNodes(c: Ctx): set<Node> {
    match c
    case Top => {}
    case Lt(up, n, _, _, r) => CNodes(up) + {n} + Nodes(r)
    case Rt(up, l, n, _, _) => CNodes(up) + {n} + Nodes(l)
  }

  predicate Distinct(t: Tree) {
    match t
    case Nil => true
    case Bin(l, n, _, _, r) =>
      Distinct(l) && Distinct(r) && n !in Nodes(l) && n !in Nodes(r) && Nodes(l) !! Nodes(r)
  }

  predicate CDistinct(c: Ctx) {
    match c
    case Top => true
    case Lt(up, n, _, _, r) =>
      CDistinct(up) && Distinct(r) && n !in CNodes(up) && n !in Nodes(r) && CNodes(up) !! Nodes(r)
    case Rt(up, l, n, _, _) =>
      CDistinct(up) && Distinct(l) && n !in CNodes(up) && n !in Nodes(l) && CNodes(up) !! Nodes(l)
  }

  function Inorder(t: Tree): seq<Pair> {
    match t
    case Nil => []
    case Bin(l, _, x, _, r) => Inorder(l) + [x] + Inorder(r)
  }

  function Before(c: Ctx): seq<Pair> {
    match c
    case Top => []
    case Lt(up, _, _, _, _) => Before(up)
    case Rt(up, l, _, x, _) => Before(up) + Inorder(l) + [x]
  }

  function After(c: Ctx): seq<Pair> {
    match c
    case Top => []
    case Lt(up, _, x, _, r) => [x] + Inorder(r) + After(up)
    case Rt(up, _, _, _, _) => After(up)
  }

  // ---------- balance ----------

  function Max(a: nat, b: nat): nat {
    if a > b then a else b
  }

  function Height(t: Tree): nat {
    match t
    case Nil => 0
    case Bin(l, _, _, _, r) => 1 + Max(Height(l), Height(r))
  }

  /** Stored balances are the true height differences, all within -1..1. */
  predicate Avl(t: Tree) {
    match t
    case Nil => true
    case Bin(l, _, _, b, r) => Avl(l) && Avl(r) && b == Height(r) - Height(l) && -1 <= b <= 1
  }

  /** The same for a context whose hole holds a tree of height h. */
  predicate CAvl(c: Ctx, h: nat) {
    match c
    case Top => true
    case Lt(up, _, _, b, r) =>
      Avl(r) && b == Height(r) - h && -1 <= b <= 1 && CAvl(up, 1 + Max(h, Height(r)))
    case Rt(up, l, _, _, b) =>
      Avl(l) && b == h - Height(l) && -1 <= b <= 1 && CAvl(up, 1 + Max(Height(l), h))
  }

  // ---------- pointers ----------

  /** The cells spell out tree t, hanging below node p. */
  predicate Links(t: Tree, p: Node?, m: Cells) {
    match t
    case Nil => true
    case Bin(l, n, x, b, r) =>
      && n in m && m[n] == Cell(RootOf(l), RootOf(r), p, b, x)
      && Links(l, n, m) && Links(r, n, m)
  }

  /** The cells spell out context c, with q in the place of the hole. */
  predicate CLinks(c: Ctx, q: Node?, m: Cells) {
    match c
    case Top => true
    case Lt(up, n, x, b, r) =>
      && n in m && m[n] == Cell(q, RootOf(r), ParentOf(up), b, x)
      && Links(r, n, m) && CLinks(up, n, m)
    case Rt(up, l, n, x, b) =>
      && n in m && m[n] == Cell(RootOf(l), q, ParentOf(up), b, x)
      && Links(l, n, m) && CLinks(up, n, m)
  }

  /** The pointers are exactly the tree Plug(c, t). */
  predicate Focus(c: Ctx, t: Tree, m: Cells, root: Node?) {
    && Distinct(t) && CDistinct(c) && CNodes(c) !! Nodes(t)
    && m.Keys == CNodes(c) + Nodes(t)
    && CLinks(c, RootOf(t), m) && Links(t, ParentOf(c), m)
    && root == TopPtr(c, RootOf(t))
  }

  /** No node but these four was written. */
  predicate Same(m: Cells, m': Cells, w0: Node?, w1: Node?, w2: Node?, w3: Node?) {
    forall k :: k in m && k != w0 && k != w1 && k != w2 && k != w3 ==> k in m' && m'[k] == m[k]
  }

  lemma Frame(t: Tree, p: Node?, m: Cells, m': Cells, w0: Node?, w1: Node?, w2: Node?, w3: Node?)
    requires Links(t, p, m) && Same(m, m', w0, w1, w2, w3)
    requires w0 !in Nodes(t) && w1 !in Nodes(t) && w2 !in Nodes(t) && w3 !in Nodes(t)
    ensures Links(t, p, m')
  {
  }

  lemma CFrame(c: Ctx, q: Node?, m: Cells, m': Cells, w0: Node?, w1: Node?, w2: Node?, w3: Node?)
    requires CLinks(c, q, m) && Same(m, m', w0, w1, w2, w3)
    requires w0 !in CNodes(c) && w1 !in CNodes(c) && w2 !in CNodes(c) && w3 !in CNodes(c)
    ensures CLinks(c, q, m')
  {
    match c
    case Top =>
    case Lt(up, n, _, _, r) => Frame(r, n, m, m', w0, w1, w2, w3); CFrame(up, n, m, m', w0, w1, w2, w3);
    case Rt(up, l, n, _, _) => Frame(l, n, m, m', w0, w1, w2, w3); CFrame(up, n, m, m', w0, w1, w2, w3);
  }

  // ---------- zipper laws ----------

  lemma {:induction false} PlugFocus(c: Ctx, t: Tree, m: Cells, root: Node?)
    ensures Focus(c, t, m, root) <==> Focus(Top, Plug(c, t), m, root)
  {
    match c
    case Top =>
    case Lt(up, n, x, b, r) => PlugFocus(up, Bin(t, n, x, b, r), m, root); FocusUp(c, t, m, root);
    case Rt(up, l, n, x, b) => PlugFocus(up, Bin(l, n, x, b, t), m, root); FocusUp(c, t, m, root);
  }

  /** Moving the focus up by one node. */
  function UpCtx(c: Ctx): Ctx requires !c.Top? { c.up }

  function UpTree(c: Ctx, t: Tree): Tree
    requires !c.Top?
  {
    match c
    case Lt(_, n, x, b, r) => Bin(t, n, x, b, r)
    case Rt(_, l, n, x, b) => Bin(l, n, x, b, t)
  }

  lemma FocusUp(c: Ctx, t: Tree, m: Cells, root: Node?)
    requires !c.Top?
    ensures Focus(c, t, m, root) <==> Focus(UpCtx(c), UpTree(c, t), m, root)
  {
    assert CNodes(c) + Nodes(t) == CNodes(UpCtx(c)) + Nodes(UpTree(c, t));
  }

  lemma PlugTop(t: Tree)
    ensures Plug(Top, t) == t
  {
  }

  lemma PlugUp(c: Ctx, t: Tree)
    requires !c.Top?
    ensures Plug(UpCtx(c), UpTree(c, t)) == Plug(c, t)
    ensures UpTree(c, t).Bin? && UpTree(c, t).n == c.n
  {
  }

  lemma PlugDown(c: Ctx, t: Tree)
    requires t.Bin?
    ensures Plug(DownL(c, t), t.l) == Plug(c, t) == Plug(DownR(c, t), t.r)
  {
  }

  lemma {:induction false} PlugInorder(c: Ctx, t: Tree)
    ensures Inorder(Plug(c, t)) == Before(c) + Inorder(t) + After(c)
  {
    match c
    case Top =>
    case Lt(up, n, x, b, r) => PlugInorder(up, Bin(t, n, x, b, r));
    case Rt(up, l, n, x, b) => PlugInorder(up, Bin(l, n, x, b, t));
  }

  lemma {:induction false} PlugAvl(c: Ctx, t: Tree)
    ensures Avl(Plug(c, t)) <==> Avl(t) && CAvl(c, Height(t))
  {
    if !c.Top? {
      var u := UpTree(c, t);
      assert Avl(u) && CAvl(c.up, Height(u)) <==> Avl(t) && CAvl(c, Height(t));
      hide Avl;
      hide CAvl;
      hide Height;
      PlugAvl(c.up, u);
    }
  }

  function Stead(t: Tree, k: Node, y: Pair): Tree
    requires t.Bin?
  {
    Bin(t.l, k, y, t.b, t.r)
  }

  /** Exchanging the node and the pair at the focus does not touch balances. */
  lemma SteadAvl(c: Ctx, t: Tree, k: Node, y: Pair)
    requires t.Bin?
    ensures Avl(Plug(c, Stead(t, k, y))) <==> Avl(Plug(c, t))
  {
    PlugAvl(c, t);
    PlugAvl(c, Stead(t, k, y));
  }

  lemma FocusBalance(c: Ctx, t: Tree)
    requires t.Bin? && Avl(Plug(c, t))
    ensures -1 <= t.b <= 1
  {
    PlugAvl(c, t);
  }

  // ---------- rotations ----------

  function RotL(t: Tree): Tree
    requires t.Bin? && t.r.Bin?
  {
    Bin(Bin(t.l, t.n, t.x, t.b, t.r.l), t.r.n, t.r.x, t.r.b, t.r.r)
  }

  function RotR(t: Tree): Tree
    requires t.Bin? && t.l.Bin?
  {
    Bin(t.l.l, t.l.n, t.l.x, t.l.b, Bin(t.l.r, t.n, t.x, t.b, t.r))
  }

  lemma RotLNodes(t: Tree)
    requires t.Bin? && t.r.Bin?
    ensures Nodes(RotL(t)) == Nodes(t) && Distinct(RotL(t)) == Distinct(t)
    ensures Nodes(t) == Nodes(t.l) + {t.n} + Nodes(t.r.l) + {t.r.n} + Nodes(t.r.r)
    ensures Distinct(t) ==>
      && Distinct(t.l) && Distinct(t.r.l) && Distinct(t.r.r)
      && t.n != t.r.n && t.n !in Nodes(t.l) && t.n !in Nodes(t.r.l) && t.n !in Nodes(t.r.r)
      && t.r.n !in Nodes(t.l) && t.r.n !in Nodes(t.r.l) && t.r.n !in Nodes(t.r.r)
      && Nodes(t.l) !! Nodes(t.r.l) && Nodes(t.l) !! Nodes(t.r.r) && Nodes(t.r.l) !! Nodes(t.r.r)
  {
  }

  lemma RotRNodes(t: Tree)
    requires t.Bin? && t.l.Bin?
    ensures Nodes(RotR(t)) == Nodes(t) && Distinct(RotR(t)) == Distinct(t)
    ensures Nodes(t) == Nodes(t.l.l) + {t.l.n} + Nodes(t.l.r) + {t.n} + Nodes(t.r)
    ensures Distinct(t) ==>
      && Distinct(t.r) && Distinct(t.l.l) && Distinct(t.l.r)
      && t.n != t.l.n && t.n !in Nodes(t.r) && t.n !in Nodes(t.l.l) && t.n !in Nodes(t.l.r)
      && t.l.n !in Nodes(t.r) && t.l.n !in Nodes(t.l.l) && t.l.n !in Nodes(t.l.r)
      && Nodes(t.r) !! Nodes(t.l.l) && Nodes(t.r) !! Nodes(t.l.r) && Nodes(t.l.l) !! Nodes(t.l.r)
  {
  }

  lemma RootIn(t: Tree)
    ensures t.Bin? <==> RootOf(t) != null
    ensures t.Bin? ==> t.n in Nodes(t)
  {
  }

  lemma ParentIn(c: Ctx)
    ensures !c.Top? <==> ParentOf(c) != null
    ensures !c.Top? ==> c.n in CNodes(c)
  {
  }

  lemma Regrouped(a: seq<Pair>, x: Pair, b: seq<Pair>, y: Pair, c: seq<Pair>)
    ensures a + [x] + (b + [y] + c) == (a + [x] + b) + [y] + c
  {
  }

  lemma {:induction false} RotationsKeepOrder(t: Tree)
    requires t.Bin?
    ensures t.r.Bin? ==> Inorder(RotL(t)) == Inorder(t)
    ensures t.l.Bin? ==> Inorder(RotR(t)) == Inorder(t)
  {
    if t.r.Bin? {
      var r := t.r;
      assert Inorder(RotL(t).l) == Inorder(t.l) + [t.x] + Inorder(r.l);
      Regrouped(Inorder(t.l), t.x, Inorder(r.l), r.x, Inorder(r.r));
    }
    if t.l.Bin? {
      var l := t.l;
      assert Inorder(RotR(t).r) == Inorder(l.r) + [t.x] + Inorder(t.r);
      Regrouped(Inorder(l.l), l.x, Inorder(l.r), t.x, Inorder(t.r));
    }
  }

  /** The one pointer that a context holds to its hole. */
  predicate Rehung(c: Ctx, q: Node?, m: Cells, m': Cells)
    requires !c.Top? ==> c.n in m && c.n in m'
  {
    match c
    case Top => true
    case Lt(_, n, _, _, _) => m'[n] == m[n].(l := q)
    case Rt(_, _, n, _, _) => m'[n] == m[n].(r := q)
  }

  lemma Rehang(c: Ctx, q: Node?, q': Node?, m: Cells, m': Cells, w0: Node?, w1: Node?, w2: Node?, w3: Node?)
    requires CLinks(c, q, m) && CDistinct(c) && Same(m, m', w0, w1, w2, w3)
    requires (w0 == ParentOf(c) || w0 !in CNodes(c)) && (w1 == ParentOf(c) || w1 !in CNodes(c))
    requires (w2 == ParentOf(c) || w2 !in CNodes(c)) && (w3 == ParentOf(c) || w3 !in CNodes(c))
    requires !c.Top? ==> c.n in m'
    requires Rehung(c, q', m, m')
    ensures CLinks(c, q', m')
  {
    match c
    case Top =>
    case Lt(up, n, _, _, r) => Frame(r, n, m, m', w0, w1, w2, w3); CFrame(up, n, m, m', w0, w1, w2, w3);
    case Rt(up, l, n, _, _) => Frame(l, n, m, m', w0, w1, w2, w3); CFrame(up, n, m, m', w0, w1, w2, w3);
  }

  lemma Reparent(t: Tree, p: Node?, p': Node?, m: Cells, m': Cells, w0: Node?, w1: Node?, w2: Node?, w3: Node?)
    requires Links(t, p, m) && Distinct(t) && Same(m, m', w0, w1, w2, w3)
    requires (w0 == RootOf(t) || w0 !in Nodes(t)) && (w1 == RootOf(t) || w1 !in Nodes(t))
    requires (w2 == RootOf(t) || w2 !in Nodes(t)) && (w3 == RootOf(t) || w3 !in Nodes(t))
    requires t.Bin? ==> t.n in m' && m'[t.n] == m[t.n].(p := p')
    ensures Links(t, p', m')
  {
    if t.Bin? {
      Frame(t.l, t.n, m, m', w0, w1, w2, w3);
      Frame(t.r, t.n, m, m', w0, w1, w2, w3);
    }
  }

  /** What the pointers say around the focus. */
  lemma FocusCells(c: Ctx, t: Tree, m: Cells, root: Node?)
    requires Focus(c, t, m, root)
    ensures t.Bin? ==> t.n in m && m[t.n] == Cell(RootOf(t.l), RootOf(t.r), ParentOf(c), t.b, t.x)
    ensures t.Bin? && t.l.Bin? ==> t.l.n in m && m[t.l.n] == Cell(RootOf(t.l.l), RootOf(t.l.r), t.n, t.l.b, t.l.x)
    ensures t.Bin? && t.r.Bin? ==> t.r.n in m && m[t.r.n] == Cell(RootOf(t.r.l), RootOf(t.r.r), t.n, t.r.b, t.r.x)
    ensures c.Lt? ==> c.n in m && m[c.n] == Cell(RootOf(t), RootOf(c.r), ParentOf(c.up), c.b, c.x)
    ensures c.Rt? ==> c.n in m && m[c.n] == Cell(RootOf(c.l), RootOf(t), ParentOf(c.up), c.b, c.x)
    ensures c.Rt? && t.Bin? ==> RootOf(c.l) != t.n
    ensures c.Lt? && t.Bin? ==> RootOf(c.r) != t.n
    ensures !c.Top? && t.Bin? ==> c.n != t.n
    ensures !c.Top? ==> forall q :: TopPtr(c, q) == root
    ensures c.Top? ==> root == RootOf(t)
  {
    if t.Bin? {
      assert Links(t.l, t.n, m) && Links(t.r, t.n, m);
    }
    if c.Rt? {
      RootIn(c.l);
    } else if c.Lt? {
      RootIn(c.r);
    }
  }

  // ---------- field writes on a snapshot ----------

  function At(m: Cells, k: Node?): Cell {
    if k != null && k in m then m[k] else Cell(null, null, null, 0, Pair([], [], 0, 0))
  }

  function PutL(m: Cells, k: Node?, v: Node?): (m': Cells)
    ensures m'.Keys == m.Keys
  {
    if k != null && k in m then m[k := m[k].(l := v)] else m
  }

  function PutR(m: Cells, k: Node?, v: Node?): (m': Cells)
    ensures m'.Keys == m.Keys
  {
    if k != null && k in m then m[k := m[k].(r := v)] else m
  }

  function PutP(m: Cells, k: Node?, v: Node?): (m': Cells)
    ensures m'.Keys == m.Keys
  {
    if k != null && k in m then m[k := m[k].(p := v)] else m
  }

  function PutB(m: Cells, k: Node?, v: int): (m': Cells)
    ensures m'.Keys == m.Keys
  {
    if k != null && k in m then m[k := m[k].(b := v)] else m
  }

  /** fixParentAndChildren_<1,0,0>: the parent of node forgets original. */
  function FixP(m: Cells, node: Node?, original: Node?): (m': Cells)
    ensures m'.Keys == m.Keys
  {
    var q := At(m, node).p;
    if At(m, q).l == original then PutL(m, q, node) else PutR(m, q, node)
  }

  lemma PutAll(m: Cells, k: Node, l: Node?, r: Node?, p: Node?, b: int)
    requires k in m
    ensures PutB(PutP(PutR(PutL(m, k, l), k, r), k, p), k, b) == m[k := Cell(l, r, p, b, m[k].x)]
  {
  }

  /** fixParentAndChildren_<1,1,1> */
  function FixAll(m: Cells, node: Node?, original: Node?): (m': Cells)
    ensures m'.Keys == m.Keys
  {
    var m1 := FixP(m, node, original);
    var m2 := PutP(m1, At(m1, node).l, node);
    PutP(m2, At(m2, node).r, node)
  }

  function FixRoot(m: Cells, root: Node?, node: Node?): Node? {
    if At(m, node).p == null then node else root
  }

  /** The writes of rotateL_(n), in order. */
  function RotLCells(m: Cells, n: Node): (m': Cells)
    ensures m'.Keys == m.Keys
  {
    var up := At(m, n).r;
    var m' := FixP(RotLEarly(m, n), up, n);
    PutP(m', At(m', up).l, up)
  }

  function RotLEarly(m: Cells, n: Node): (m': Cells)
    ensures m'.Keys == m.Keys
  {
    var up := At(m, n).r;
    var t := At(m, up).l;
    var m' := PutL(PutP(PutR(m, n, t), t, n), up, n);
    PutP(m', up, At(m', n).p)
  }

  function RotLRoot(m: Cells, root: Node?, n: Node): Node? {
    FixRoot(RotLEarly(m, n), root, At(m, n).r)
  }

  lemma RotLWrites(m: Cells, n: Node, up: Node, t: Node?, q: Node?)
    requires n in m && up in m && n != up && m[n].r == up && m[up].l == t && m[n].p == q
    requires t != null ==> t in m && t != n && t != up && t != q
    requires q != null ==> q in m && q != n && q != up
    ensures var m' := RotLCells(m, n);
      && m'[n] == m[n].(r := t, p := up)
      && m'[up] == m[up].(l := n, p := q)
      && (t != null ==> m'[t] == m[t].(p := n))
      && (q != null ==> m'[q] == if m[q].l == n then m[q].(l := up) else m[q].(r := up))
      && Same(m, m', n, up, t, q)
    ensures forall root :: RotLRoot(m, root, n) == if q == null then up else root
  {
  }

  lemma RotLApart(c: Ctx, t: Tree, m: Cells, root: Node?)
    requires Focus(c, t, m, root) && t.Bin? && t.r.Bin?
    ensures Links(t.l, t.n, m) && Links(t.r.l, t.r.n, m) && Links(t.r.r, t.r.n, m) && CLinks(c, t.n, m)
    ensures CDistinct(c) && Distinct(t.r.l)
    ensures t.n != t.r.n && t.n !in Nodes(t.l) && t.n !in Nodes(t.r.l) && t.n !in Nodes(t.r.r) && t.n !in CNodes(c)
    ensures t.r.n !in Nodes(t.l) && t.r.n !in Nodes(t.r.l) && t.r.n !in Nodes(t.r.r) && t.r.n !in CNodes(c)
    ensures var u := RootOf(t.r.l);
      u !in Nodes(t.l) && u !in Nodes(t.r.r) && u !in CNodes(c) && u != t.n && u != t.r.n && (u != null ==> u in m)
    ensures var q := ParentOf(c);
      q !in Nodes(t.l) && q !in Nodes(t.r.l) && q !in Nodes(t.r.r) && q != t.n && q != t.r.n
    ensures RootOf(t.r.l) != null ==> RootOf(t.r.l) != ParentOf(c)
  {
    RotLNodes(t);
    RootIn(t.r.l);
    ParentIn(c);
    hide Nodes;
    hide CNodes;
    hide CLinks;
    hide Distinct;
    hide CDistinct;
    assert Links(t.r, t.n, m);
  }

  lemma RotLLinks(c: Ctx, t: Tree, m: Cells, root: Node?)
    requires Focus(c, t, m, root) && t.Bin? && t.r.Bin?
    ensures RotLRoot(m, root, t.n) == TopPtr(c, t.r.n)
    ensures CLinks(c, t.r.n, RotLCells(m, t.n)) && Links(RotL(t), ParentOf(c), RotLCells(m, t.n))
  {
    FocusCells(c, t, m, root);
    RotLApart(c, t, m, root);
    hide Focus;
    hide Nodes;
    hide CNodes;
    hide Distinct;
    hide CDistinct;
    hide CLinks;
    hide RotLCells;
    hide RotLRoot;
    var m' := RotLCells(m, t.n);
    RotLWrites(m, t.n, t.r.n, RootOf(t.r.l), ParentOf(c));
    var w0, w1, w2, w3 := t.n, t.r.n, RootOf(t.r.l), ParentOf(c);
    Rehang(c, t.n, t.r.n, m, m', w0, w1, w2, w3);
    Frame(t.l, t.n, m, m', w0, w1, w2, w3);
    Reparent(t.r.l, t.r.n, t.n, m, m', w0, w1, w2, w3);
    Frame(t.r.r, t.r.n, m, m', w0, w1, w2, w3);
    assert Links(RotL(t).l, t.r.n, m');
  }

  lemma RotLFocus(c: Ctx, t: Tree, m: Cells, root: Node?)
    requires Focus(c, t, m, root) && t.Bin? && t.r.Bin?
    ensures Focus(c, RotL(t), RotLCells(m, t.n), RotLRoot(m, root, t.n))
  {
    FocusCells(c, t, m, root);
    RotLLinks(c, t, m, root);
    RotLNodes(t);
  }

  /** The writes of rotateR_(n), in order. */
  function RotRCells(m: Cells, n: Node): (m': Cells)
    ensures m'.Keys == m.Keys
  {
    var up := At(m, n).l;
    var m' := FixP(RotREarly(m, n), up, n);
    PutP(m', At(m', up).r, up)
  }

  function RotREarly(m: Cells, n: Node): (m': Cells)
    ensures m'.Keys == m.Keys
  {
    var up := At(m, n).l;
    var t := At(m, up).r;
    var m' := PutR(PutP(PutL(m, n, t), t, n), up, n);
    PutP(m', up, At(m', n).p)
  }

  function RotRRoot(m: Cells, root: Node?, n: Node): Node? {
    FixRoot(RotREarly(m, n), root, At(m, n).l)
  }

  lemma RotRWrites(m: Cells, n: Node, up: Node, t: Node?, q: Node?)
    requires n in m && up in m && n != up && m[n].l == up && m[up].r == t && m[n].p == q
    requires t != null ==> t in m && t != n && t != up && t != q
    requires q != null ==> q in m && q != n && q != up
    ensures var m' := RotRCells(m, n);
      && m'[n] == m[n].(l := t, p := up)
      && m'[up] == m[up].(r := n, p := q)
      && (t != null ==> m'[t] == m[t].(p := n))
      && (q != null ==> m'[q] == if m[q].l == n then m[q].(l := up) else m[q].(r := up))
      && Same(m, m', n, up, t, q)
    ensures forall root :: RotRRoot(m, root, n) == if q == null then up else root
  {
  }

  lemma RotRApart(c: Ctx, t: Tree, m: Cells, root: Node?)
    requires Focus(c, t, m, root) && t.Bin? && t.l.Bin?
    ensures Links(t.r, t.n, m) && Links(t.l.r, t.l.n, m) && Links(t.l.l, t.l.n, m) && CLinks(c, t.n, m)
    ensures CDistinct(c) && Distinct(t.l.r)
    ensures t.n != t.l.n && t.n !in Nodes(t.r) && t.n !in Nodes(t.l.r) && t.n !in Nodes(t.l.l) && t.n !in CNodes(c)
    ensures t.l.n !in Nodes(t.r) && t.l.n !in Nodes(t.l.r) && t.l.n !in Nodes(t.l.l) && t.l.n !in CNodes(c)
    ensures var u := RootOf(t.l.r);
      u !in Nodes(t.r) && u !in Nodes(t.l.l) && u !in CNodes(c) && u != t.n && u != t.l.n && (u != null ==> u in m)
    ensures var q := ParentOf(c);
      q !in Nodes(t.r) && q !in Nodes(t.l.r) && q !in Nodes(t.l.l) && q != t.n && q != t.l.n
    ensures RootOf(t.l.r) != null ==> RootOf(t.l.r) != ParentOf(c)
  {
    RotRNodes(t);
    RootIn(t.l.r);
    ParentIn(c);
    hide Nodes;
    hide CNodes;
    hide CLinks;
    hide Distinct;
    hide CDistinct;
    assert Links(t.l, t.n, m);
  }

  lemma RotRLinks(c: Ctx, t: Tree, m: Cells, root: Node?)
    requires Focus(c, t, m, root) && t.Bin? && t.l.Bin?
    ensures RotRRoot(m, root, t.n) == TopPtr(c, t.l.n)
    ensures CLinks(c, t.l.n, RotRCells(m, t.n)) && Links(RotR(t), ParentOf(c), RotRCells(m, t.n))
  {
    FocusCells(c, t, m, root);
    RotRApart(c, t, m, root);
    hide Focus;
    hide Nodes;
    hide CNodes;
    hide Distinct;
    hide CDistinct;
    hide CLinks;
    hide RotRCells;
    hide RotRRoot;
    var m' := RotRCells(m, t.n);
    RotRWrites(m, t.n, t.l.n, RootOf(t.l.r), ParentOf(c));
    var w0, w1, w2, w3 := t.n, t.l.n, RootOf(t.l.r), ParentOf(c);
    Rehang(c, t.n, t.l.n, m, m', w0, w1, w2, w3);
    Frame(t.r, t.n, m, m', w0, w1, w2, w3);
    Reparent(t.l.r, t.l.n, t.n, m, m', w0, w1, w2, w3);
    Frame(t.l.l, t.l.n, m, m', w0, w1, w2, w3);
    assert Links(RotR(t).r, t.l.n, m');
  }

  lemma RotRFocus(c: Ctx, t: Tree, m: Cells, root: Node?)
    requires Focus(c, t, m, root) && t.Bin? && t.l.Bin?
    ensures Focus(c, RotR(t), RotRCells(m, t.n), RotRRoot(m, root, t.n))
  {
    FocusCells(c, t, m, root);
    RotRLinks(c, t, m, root);
    RotRNodes(t);
  }

  // ---------- stored balances ----------

  lemma PutBFocus(c: Ctx, t: Tree, m: Cells, root: Node?, v: int)
    requires Focus(c, t, m, root) && t.Bin?
    ensures Focus(c, t.(b := v), PutB(m, t.n, v), root)
  {
    var m' := PutB(m, t.n, v);
    assert Same(m, m', t.n, null, null, null);
    CFrame(c, t.n, m, m', t.n, null, null, null);
    Frame(t.l, t.n, m, m', t.n, null, null, null);
    Frame(t.r, t.n, m, m', t.n, null, null, null);
  }

  /** The focus moved down to a child. */
  function DownL(c: Ctx, t: Tree): Ctx requires t.Bin? { Lt(c, t.n, t.x, t.b, t.r) }

  function DownR(c: Ctx, t: Tree): Ctx requires t.Bin? { Rt(c, t.l, t.n, t.x, t.b) }

  lemma FocusDown(c: Ctx, t: Tree, m: Cells, root: Node?)
    requires t.Bin?
    ensures Focus(c, t, m, root) <==> Focus(DownL(c, t), t.l, m, root)
    ensures Focus(c, t, m, root) <==> Focus(DownR(c, t), t.r, m, root)
  {
    FocusUp(DownL(c, t), t.l, m, root);
    FocusUp(DownR(c, t), t.r, m, root);
  }

  lemma PutBFocusL(c: Ctx, t: Tree, m: Cells, root: Node?, v: int)
    requires Focus(c, t, m, root) && t.Bin? && t.l.Bin?
    ensures Focus(c, t.(l := t.l.(b := v)), PutB(m, t.l.n, v), root)
  {
    hide Focus;
    FocusDown(c, t, m, root);
    PutBFocus(DownL(c, t), t.l, m, root, v);
    FocusDown(c, t.(l := t.l.(b := v)), PutB(m, t.l.n, v), root);
  }

  lemma PutBFocusR(c: Ctx, t: Tree, m: Cells, root: Node?, v: int)
    requires Focus(c, t, m, root) && t.Bin? && t.r.Bin?
    ensures Focus(c, t.(r := t.r.(b := v)), PutB(m, t.r.n, v), root)
  {
    hide Focus;
    FocusDown(c, t, m, root);
    PutBFocus(DownR(c, t), t.r, m, root, v);
    FocusDown(c, t.(r := t.r.(b := v)), PutB(m, t.r.n, v), root);
  }

  function PutX(m: Cells, k: Node?, v: Pair): (m': Cells)
    ensures m'.Keys == m.Keys
  {
    if k != null && k in m then m[k := m[k].(x := v)] else m
  }

  lemma PutXFocus(c: Ctx, t: Tree, m: Cells, root: Node?, v: Pair)
    requires Focus(c, t, m, root) && t.Bin?
    ensures Focus(c, t.(x := v), PutX(m, t.n, v), root)
  {
    var m' := PutX(m, t.n, v);
    assert Same(m, m', t.n, null, null, null);
    CFrame(c, t.n, m, m', t.n, null, null, null);
    Frame(t.l, t.n, m, m', t.n, null, null, null);
    Frame(t.r, t.n, m, m', t.n, null, null, null);
  }
}
