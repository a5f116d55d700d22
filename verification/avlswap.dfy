/** swapLinks_: two nodes of the AVL memtable exchange places. */
module AvlSwap {
  import opened Pairs
  import opened AvlTree

  predicate ConsistentAt(m: Cells, root: Node?, k: Node)
    requires k in m
  {
    && (m[k].l != null ==> m[k].l in m && m[m[k].l].p == k && m[k].l != m[k].r)
    && (m[k].r != null ==> m[k].r in m && m[m[k].r].p == k)
    && (m[k].p != null ==> m[k].p in m && m[k].p != k && (m[m[k].p].l == k || m[m[k].p].r == k))
    && (m[k].p == null <==> k == root)
  }

  /** Parent and child pointers agree with each other. */
  predicate Consistent(m: Cells, root: Node?) {
    forall k :: k in m ==> ConsistentAt(m, root, k)
  }

  function Ren(k: Node?, a: Node, b: Node): Node? {
    if k == a then b else if k == b then a else k
  }

  function RenCell(s: Cell, a: Node, b: Node, x: Pair): Cell {
    Cell(Ren(s.l, a, b), Ren(s.r, a, b), Ren(s.p, a, b), s.b, x)
  }

  /** The snapshot after a and b have exchanged places, each keeping its pair. */
  function Swapped(m: Cells, a: Node, b: Node): (m': Cells)
    requires a in m && b in m
    ensures m'.Keys == m.Keys
  {
    map k | k in m :: RenCell(if k == a then m[b] else if k == b then m[a] else m[k], a, b, m[k].x)
  }

  lemma SwappedAt(m: Cells, a: Node, b: Node, k: Node)
    requires a in m && b in m && k in m
    ensures Swapped(m, a, b)[k] == RenCell(if k == a then m[b] else if k == b then m[a] else m[k], a, b, m[k].x)
  {
  }

  lemma SwappedSymmetric(m: Cells, a: Node, b: Node)
    requires a in m && b in m
    ensures Swapped(m, a, b) == Swapped(m, b, a) && forall k :: Ren(k, a, b) == Ren(k, b, a)
  {
  }

  // ---------- what the code writes ----------

  function ExchangeCells(m: Cells, a: Node, b: Node): (m': Cells)
    requires a in m && b in m
    ensures m'.Keys == m.Keys
  {
    m[a := m[b].(x := m[a].x)][b := m[a].(x := m[b].x)]
  }

  function SwapNormalCells(m: Cells, a: Node, b: Node): (m': Cells)
    requires a in m && b in m
    ensures m'.Keys == m.Keys
  {
    FixAll(FixAll(ExchangeCells(m, a, b), a, b), b, a)
  }

  function SwapNormalRoot(m: Cells, root: Node?, a: Node, b: Node): Node?
    requires a in m && b in m
  {
    var m1 := ExchangeCells(m, a, b);
    FixRoot(FixAll(m1, a, b), FixRoot(m1, root, a), b)
  }

  function SwapRelativeCells(m: Cells, a: Node, b: Node): (m': Cells)
    requires a in m && b in m
    ensures m'.Keys == m.Keys
  {
    var m1 := FixP(ExchangeCells(m, a, b), b, a);
    var m2 := PutP(m1, At(m1, a).l, a);
    var m3 := PutP(m2, At(m2, a).r, a);
    var m4 := PutP(m3, a, b);
    if At(m4, b).l == b then
      var m5 := PutL(m4, b, a);
      PutP(m5, At(m5, b).r, b)
    else
      PutR(PutP(m4, At(m4, b).l, b), b, a)
  }

  function SwapRelativeRoot(m: Cells, root: Node?, a: Node, b: Node): Node?
    requires a in m && b in m
  {
    FixRoot(ExchangeCells(m, a, b), root, b)
  }

  /** Siblings with b on the left: the case swapLinksNormal_ gets wrong. */
  predicate Crossed(m: Cells, a: Node, b: Node)
    requires a in m && b in m
  {
    m[a].p != null && m[a].p == m[b].p && At(m, m[a].p).l == b
  }

  /** fixParentAndChildren_<1,1,1> seen from one node k. */
  function FixedCell(m: Cells, node: Node, original: Node, k: Node): Cell
    requires node in m && k in m
  {
    var q := m[node].p;
    var c := if k != q then m[k] else if m[k].l == original then m[k].(l := node) else m[k].(r := node);
    if k == m[node].l || k == m[node].r then c.(p := node) else c
  }

  lemma FixAllAt(m: Cells, node: Node, original: Node, k: Node)
    requires node in m && k in m
    requires m[node].l != node && m[node].r != node && m[node].p != node
    ensures FixAll(m, node, original)[k] == FixedCell(m, node, original, k)
  {
    var q := m[node].p;
    var m1 := FixP(m, node, original);
    assert At(m1, node) == m[node];
    var m2 := PutP(m1, m[node].l, node);
    assert At(m2, node) == m[node];
  }

  /** swapLinksNormal_ seen from one node k. */
  lemma SwapNormalCell(m: Cells, a: Node, b: Node, k: Node)
    requires a in m && b in m && a != b && k in m && m[b].p != a && m[a].p != b
    requires m[a].l != a && m[a].r != a && m[a].p != a && m[b].l != b && m[b].r != b && m[b].p != b
    requires m[a].l != b && m[a].r != b && m[b].l != a && m[b].r != a
    ensures var m1 := ExchangeCells(m, a, b);
      var m2 := m1[k := FixedCell(m1, a, b, k)][b := m1[b]];
      SwapNormalCells(m, a, b)[k] == FixedCell(m2, b, a, k)
  {
    var m1 := ExchangeCells(m, a, b);
    var m2 := FixAll(m1, a, b);
    FixAllAt(m1, a, b, k);
    FixAllAt(m1, a, b, b);
    hide FixAll;
    FixAllAt(m2, b, a, k);
  }

  /** The same for a node that is neither a nor b. */
  function OtherCell(m: Cells, a: Node, b: Node, k: Node): Cell
    requires a in m && b in m && k in m
  {
    var c := m[k];
    var c1 := if k != m[b].p then c else if c.l == b then c.(l := a) else c.(r := a);
    var c2 := if k == m[b].l || k == m[b].r then c1.(p := a) else c1;
    var c3 := if k != m[a].p then c2 else if c2.l == a then c2.(l := b) else c2.(r := b);
    if k == m[a].l || k == m[a].r then c3.(p := b) else c3
  }

  lemma SwapNormalOther(m: Cells, root: Node?, a: Node, b: Node, k: Node)
    requires a in m && b in m && a != b && k in m && k != a && k != b && m[b].p != a && m[a].p != b
    requires ConsistentAt(m, root, a) && ConsistentAt(m, root, b) && ConsistentAt(m, root, k)
    ensures !Crossed(m, a, b) ==> OtherCell(m, a, b, k) == RenCell(m[k], a, b, m[k].x)
    ensures Crossed(m, a, b) && k == m[a].p ==> OtherCell(m, a, b, k) != RenCell(m[k], a, b, m[k].x)
  {
  }

  lemma OtherCellIs(m: Cells, a: Node, b: Node, k: Node)
    requires a in m && b in m && a != b && k in m && k != a && k != b
    ensures var m1 := ExchangeCells(m, a, b);
      var m2 := m1[k := FixedCell(m1, a, b, k)][b := m1[b]];
      FixedCell(m2, b, a, k) == OtherCell(m, a, b, k)
  {
  }

  lemma MovedCellIs(m: Cells, root: Node?, a: Node, b: Node)
    requires a in m && b in m && a != b && m[b].p != a && m[a].p != b
    requires ConsistentAt(m, root, a) && ConsistentAt(m, root, b)
    ensures var m1 := ExchangeCells(m, a, b);
      && FixedCell(m1[a := FixedCell(m1, a, b, a)][b := m1[b]], b, a, a) == RenCell(m[b], a, b, m[a].x)
      && FixedCell(m1[b := FixedCell(m1, a, b, b)][b := m1[b]], b, a, b) == RenCell(m[a], a, b, m[b].x)
  {
  }

  lemma SwapNormalAt(m: Cells, root: Node?, a: Node, b: Node, k: Node)
    requires Consistent(m, root) && a in m && b in m && a != b && m[b].p != a && m[a].p != b && k in m
    ensures !Crossed(m, a, b) ==> SwapNormalCells(m, a, b)[k] == Swapped(m, a, b)[k]
    ensures Crossed(m, a, b) && k == m[a].p ==> SwapNormalCells(m, a, b)[k] != Swapped(m, a, b)[k]
  {
    assert ConsistentAt(m, root, a) && ConsistentAt(m, root, b) && ConsistentAt(m, root, k);
    SwapNormalCell(m, a, b, k);
    if k == a || k == b {
      MovedCellIs(m, root, a, b);
    } else {
      SwapNormalOther(m, root, a, b, k);
      OtherCellIs(m, a, b, k);
    }
  }

  /** swapLinksNormal_ exchanges two nodes of any tree exactly when they are not
      siblings passed right one first. */
  lemma SwapNormalExact(m: Cells, root: Node?, a: Node, b: Node)
    requires Consistent(m, root) && a in m && b in m && a != b && m[b].p != a && m[a].p != b
    ensures SwapNormalCells(m, a, b) == Swapped(m, a, b) <==> !Crossed(m, a, b)
    ensures SwapNormalRoot(m, root, a, b) == Ren(root, a, b)
  {
    hide SwapNormalCells;
    hide Swapped;
    hide SwapNormalRoot;
    hide Consistent;
    var m', s := SwapNormalCells(m, a, b), Swapped(m, a, b);
    SwapNormalRootIs(m, root, a, b);
    if Crossed(m, a, b) {
      SwapNormalAt(m, root, a, b, m[a].p);
    } else {
      forall k | k in m ensures m'[k] == s[k] {
        SwapNormalAt(m, root, a, b, k);
      }
    }
  }

  lemma SwapNormalRootIs(m: Cells, root: Node?, a: Node, b: Node)
    requires Consistent(m, root) && a in m && b in m && a != b && m[b].p != a && m[a].p != b
    ensures SwapNormalRoot(m, root, a, b) == Ren(root, a, b)
  {
    assert ConsistentAt(m, root, a) && ConsistentAt(m, root, b);
    FixAllAt(ExchangeCells(m, a, b), a, b, b);
    hide Consistent;
    hide FixAll;
  }

  // ---------- parent and child ----------

  /** swapLinksRelative_ seen from one node k. */
  function RelativeCell(m: Cells, a: Node, b: Node, k: Node): Cell
    requires a in m && b in m && k in m
  {
    if k == a then
      Cell(m[b].l, m[b].r, b, m[b].b, m[a].x)
    else if k == b then
      if m[a].l == b then Cell(a, m[a].r, m[a].p, m[a].b, m[b].x) else Cell(m[a].l, a, m[a].p, m[a].b, m[b].x)
    else
      var c := m[k];
      var c1 := if k != m[a].p then c else if c.l == a then c.(l := b) else c.(r := b);
      var c2 := if k == m[b].l || k == m[b].r then c1.(p := a) else c1;
      if k == (if m[a].l == b then m[a].r else m[a].l) then c2.(p := b) else c2
  }

  lemma PutPAt(m: Cells, q: Node?, v: Node?, k: Node)
    requires k in m
    ensures PutP(m, q, v)[k] == if k == q then m[k].(p := v) else m[k]
  {
  }

  /** After the parent has been redirected and b's children adopted by a. */
  lemma RelativeMiddle(m: Cells, root: Node?, a: Node, b: Node, k: Node)
    requires a in m && b in m && k in m && m[b].p == a && m[a].p != b
    requires ConsistentAt(m, root, a) && ConsistentAt(m, root, b) && ConsistentAt(m, root, k)
    ensures var m1 := FixP(ExchangeCells(m, a, b), b, a);
      var m2 := PutP(m1, At(m1, a).l, a);
      var m3 := PutP(m2, At(m2, a).r, a);
      var m4 := PutP(m3, a, b);
      var c := ExchangeCells(m, a, b)[k];
      var c1 := if k != m[a].p then c else if c.l == a then c.(l := b) else c.(r := b);
      var c2 := if k == m[b].l || k == m[b].r then c1.(p := a) else c1;
      m4[k] == if k == a then c2.(p := b) else c2
  {
    var m0 := ExchangeCells(m, a, b);
    var m1 := FixP(m0, b, a);
    assert m1[a] == m0[a] && m1[b] == m0[b];
    assert m1[k] == (var c := m0[k]; if k != m[a].p then c else if c.l == a then c.(l := b) else c.(r := b));
    hide FixP;
    var m2 := PutP(m1, m[b].l, a);
    var m3 := PutP(m2, m[b].r, a);
    PutPAt(m1, m[b].l, a, k);
    PutPAt(m1, m[b].l, a, a);
    PutPAt(m2, m[b].r, a, k);
    PutPAt(m3, a, b, k);
    hide PutP;
  }

  lemma SwapRelativeCell(m: Cells, root: Node?, a: Node, b: Node, k: Node)
    requires a in m && b in m && k in m && m[b].p == a && m[a].p != b
    requires ConsistentAt(m, root, a) && ConsistentAt(m, root, b) && ConsistentAt(m, root, k)
    ensures SwapRelativeCells(m, a, b)[k] == RelativeCell(m, a, b, k)
  {
    var m1 := FixP(ExchangeCells(m, a, b), b, a);
    var m2 := PutP(m1, At(m1, a).l, a);
    var m3 := PutP(m2, At(m2, a).r, a);
    var m4 := PutP(m3, a, b);
    RelativeMiddle(m, root, a, b, k);
    RelativeMiddle(m, root, a, b, b);
    assert m4[b].l == m[a].l && m4[b].r == m[a].r;
    hide FixP;
    RelativeEnd(m4, a, b, m[a].l, m[a].r, k);
  }

  lemma RelativeEnd(m: Cells, a: Node, b: Node, l: Node?, r: Node?, k: Node)
    requires a in m && b in m && k in m && a != b && m[b].l == l && m[b].r == r
    ensures (if l == b then PutP(PutL(m, b, a), At(PutL(m, b, a), b).r, b) else PutR(PutP(m, At(m, b).l, b), b, a))[k]
         == (var c := if k != b then m[k] else if l == b then m[k].(l := a) else m[k].(r := a);
             if k == (if l == b then r else l) then c.(p := b) else c)
  {
  }

  lemma RelativeCellIs(m: Cells, root: Node?, a: Node, b: Node, k: Node)
    requires a in m && b in m && k in m && m[b].p == a && m[a].p != b
    requires ConsistentAt(m, root, a) && ConsistentAt(m, root, b) && ConsistentAt(m, root, k)
    ensures RelativeCell(m, a, b, k) == RenCell(if k == a then m[b] else if k == b then m[a] else m[k], a, b, m[k].x)
  {
  }

  lemma SwapRelativeRootIs(m: Cells, root: Node?, a: Node, b: Node)
    requires Consistent(m, root) && a in m && b in m && m[b].p == a && m[a].p != b
    ensures SwapRelativeRoot(m, root, a, b) == Ren(root, a, b)
  {
    assert ConsistentAt(m, root, a) && ConsistentAt(m, root, b);
    hide Consistent;
  }

  lemma SwapRelativeAt(m: Cells, root: Node?, a: Node, b: Node, k: Node)
    requires Consistent(m, root) && a in m && b in m && m[b].p == a && m[a].p != b && k in m
    ensures SwapRelativeCells(m, a, b)[k] == Swapped(m, a, b)[k]
  {
    assert ConsistentAt(m, root, a) && ConsistentAt(m, root, b) && ConsistentAt(m, root, k);
    SwappedAt(m, a, b, k);
    SwapRelativeCell(m, root, a, b, k);
    RelativeCellIs(m, root, a, b, k);
    hide *;
  }

  /** swapLinksRelative_ exchanges a node with either of its children. */
  lemma SwapRelativeIs(m: Cells, root: Node?, a: Node, b: Node)
    requires Consistent(m, root) && a in m && b in m && m[b].p == a && m[a].p != b
    ensures SwapRelativeCells(m, a, b) == Swapped(m, a, b)
    ensures SwapRelativeRoot(m, root, a, b) == Ren(root, a, b)
  {
    hide SwapRelativeCells;
    hide Swapped;
    hide SwapRelativeRoot;
    hide Consistent;
    SwapRelativeRootIs(m, root, a, b);
    var m', s := SwapRelativeCells(m, a, b), Swapped(m, a, b);
    forall k | k in m ensures m'[k] == s[k] {
      SwapRelativeAt(m, root, a, b, k);
    }
  }

  // ---------- the tree after an exchange ----------

  /** Every node renamed; the pairs of a and b travel with them. */
  function SwapT(t: Tree, a: Node, b: Node, xa: Pair, xb: Pair): Tree {
    match t
    case Nil => Nil
    case Bin(l, n, x, bal, r) =>
      var l', r' := SwapT(l, a, b, xa, xb), SwapT(r, a, b, xa, xb);
      if n == a then Bin(l', b, xb, bal, r') else if n == b then Bin(l', a, xa, bal, r') else Bin(l', n, x, bal, r')
  }

  function SwapC(c: Ctx, a: Node, b: Node, xa: Pair, xb: Pair): Ctx {
    match c
    case Top => Top
    case Lt(up, n, x, bal, r) =>
      var up', r' := SwapC(up, a, b, xa, xb), SwapT(r, a, b, xa, xb);
      if n == a then Lt(up', b, xb, bal, r') else if n == b then Lt(up', a, xa, bal, r') else Lt(up', n, x, bal, r')
    case Rt(up, l, n, x, bal) =>
      var up', l' := SwapC(up, a, b, xa, xb), SwapT(l, a, b, xa, xb);
      if n == a then Rt(up', l', b, xb, bal) else if n == b then Rt(up', l', a, xa, bal) else Rt(up', l', n, x, bal)
  }

  lemma {:induction false} SwapPlug(c: Ctx, t: Tree, a: Node, b: Node, xa: Pair, xb: Pair)
    ensures SwapT(Plug(c, t), a, b, xa, xb) == Plug(SwapC(c, a, b, xa, xb), SwapT(t, a, b, xa, xb))
  {
    match c
    case Top =>
    case Lt(up, n, x, bal, r) => SwapPlug(up, Bin(t, n, x, bal, r), a, b, xa, xb);
    case Rt(up, l, n, x, bal) => SwapPlug(up, Bin(l, n, x, bal, t), a, b, xa, xb);
  }

  lemma SwapTElsewhere(t: Tree, a: Node, b: Node, xa: Pair, xb: Pair)
    requires a !in Nodes(t) && b !in Nodes(t)
    ensures SwapT(t, a, b, xa, xb) == t
  {
  }

  lemma SwapHeight(t: Tree, a: Node, b: Node, xa: Pair, xb: Pair)
    ensures Height(SwapT(t, a, b, xa, xb)) == Height(t)
    ensures Avl(SwapT(t, a, b, xa, xb)) <==> Avl(t)
  {
  }

  lemma {:induction false} SwapNodes(t: Tree, a: Node, b: Node, xa: Pair, xb: Pair)
    requires a != b && Distinct(t)
    ensures forall k :: k in Nodes(SwapT(t, a, b, xa, xb)) <==> Ren(k, a, b) in Nodes(t)
    ensures Distinct(SwapT(t, a, b, xa, xb))
  {
    if t.Bin? {
      SwapNodes(t.l, a, b, xa, xb);
      SwapNodes(t.r, a, b, xa, xb);
      var l', r' := SwapT(t.l, a, b, xa, xb), SwapT(t.r, a, b, xa, xb);
      forall k | k in Nodes(l') ensures k !in Nodes(r') {
        assert Ren(k, a, b) in Nodes(t.l);
      }
    }
  }

  lemma {:induction false} SwapLinks(t: Tree, p: Node?, m: Cells, a: Node, b: Node)
    requires Links(t, p, m) && a in m && b in m && a != b
    ensures Links(SwapT(t, a, b, m[a].x, m[b].x), Ren(p, a, b), Swapped(m, a, b))
  {
    if t.Bin? {
      SwapLinks(t.l, t.n, m, a, b);
      SwapLinks(t.r, t.n, m, a, b);
    }
  }

  /** The exchange as a whole: a tree with the same places and balances. */
  lemma SwapFocus(t: Tree, m: Cells, root: Node?, a: Node, b: Node)
    requires Focus(Top, t, m, root) && a in m && b in m && a != b
    ensures Focus(Top, SwapT(t, a, b, m[a].x, m[b].x), Swapped(m, a, b), Ren(root, a, b))
  {
    SwapLinks(t, null, m, a, b);
    SwapAllNodes(t, a, b, m[a].x, m[b].x);
    hide Links;
    hide Distinct;
    hide Nodes;
    hide Swapped;
  }

  lemma SwapAllNodes(t: Tree, a: Node, b: Node, xa: Pair, xb: Pair)
    requires a != b && Distinct(t) && a in Nodes(t) && b in Nodes(t)
    ensures Nodes(SwapT(t, a, b, xa, xb)) == Nodes(t) && Distinct(SwapT(t, a, b, xa, xb))
  {
    SwapNodes(t, a, b, xa, xb);
    hide Nodes;
    hide Distinct;
    hide SwapT;
    var u := SwapT(t, a, b, xa, xb);
    forall k | k in Nodes(t) ensures k in Nodes(u) {
      assert Ren(k, a, b) in Nodes(t);
    }
    forall k | k in Nodes(u) ensures k in Nodes(t) {
      assert Ren(k, a, b) in Nodes(t);
    }
  }

  lemma {:induction false} LinksConsistent(t: Tree, p: Node?, m: Cells, root: Node?, k: Node)
    requires Links(t, p, m) && Distinct(t) && k in Nodes(t) && p !in Nodes(t)
    requires p != null ==> p in m && (m[p].l == RootOf(t) || m[p].r == RootOf(t))
    requires p == null ==> root == RootOf(t)
    requires p != null ==> root !in Nodes(t)
    ensures k in m && ConsistentAt(m, root, k)
  {
    RootIn(t.l);
    RootIn(t.r);
    if k == t.n {
    } else if k in Nodes(t.l) {
      LinksConsistent(t.l, t.n, m, root, k);
    } else {
      LinksConsistent(t.r, t.n, m, root, k);
    }
  }

  lemma FocusConsistent(t: Tree, m: Cells, root: Node?)
    requires Focus(Top, t, m, root)
    ensures Consistent(m, root)
  {
    forall k | k in m ensures ConsistentAt(m, root, k) {
      LinksConsistent(t, null, m, root, k);
    }
  }
}
