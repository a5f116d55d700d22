/** Erasing from the AVL memtable, on trees: the node exchanged with its successor and
    then cut out leaves exactly the other pairs, in order. */
module AvlErase {
  import opened Pairs
  import opened AvlTree
  import opened AvlEdit
  import opened AvlSearch
  import opened AvlSwap

  /** c is d followed by steps to the left only. */
  predicate OnlyLeft(c: Ctx, d: Ctx) {
    c == d || (c.Lt? && OnlyLeft(c.up, d))
  }

  lemma SwapCElsewhere(c: Ctx, a: Node, b: Node, xa: Pair, xb: Pair)
    requires a !in CNodes(c) && b !in CNodes(c)
    ensures SwapC(c, a, b, xa, xb) == c
  {
    match c
    case Top =>
    case Lt(up, _, _, _, r) => SwapTElsewhere(r, a, b, xa, xb);
    case Rt(up, l, _, _, _) => SwapTElsewhere(l, a, b, xa, xb);
  }

  /** The path to the successor after the exchange: only one pair on it has changed. */
  lemma {:induction false} SuccessorPath(d: Ctx, c: Ctx, b: Node, xb: Pair)
    requires OnlyLeft(c, d) && d.Rt? && CDistinct(c) && b !in CNodes(c)
    ensures d.n in CNodes(c) && CDistinct(d) && b !in CNodes(d)
    ensures Before(c) == Before(d.up) + Inorder(d.l) + [d.x]
    ensures Before(SwapC(c, d.n, b, d.x, xb)) == Before(d.up) + Inorder(d.l) + [xb]
    ensures After(SwapC(c, d.n, b, d.x, xb)) == After(c)
    decreases c
  {
    if c == d {
      SwapCElsewhere(d.up, d.n, b, d.x, xb);
      SwapTElsewhere(d.l, d.n, b, d.x, xb);
    } else {
      SuccessorPath(d, c.up, b, xb);
      SwapTElsewhere(c.r, d.n, b, d.x, xb);
    }
  }

  /** The pairs that remain when t, at most one child left, is cut out below c. */
  lemma CutContents(c: Ctx, t: Tree, a: seq<Pair>, x: Pair, b: seq<Pair>)
    requires t.Bin? && (t.l.Nil? || t.r.Nil?)
    requires Before(c) + Inorder(OnlyChild(t)) + After(c) == a + b
    requires Sorted(a + [x] + b) && KeysValid(a + [x] + b)
    ensures var s := Inorder(Plug(c, OnlyChild(t)));
      && Sorted(s) && KeysValid(s) && |s| == |a + [x] + b| - 1
      && TotalBytes(a + [x] + b) >= x.Bytes() && TotalBytes(s) == TotalBytes(a + [x] + b) - x.Bytes()
      && x.key in MapOf(a + [x] + b) && MapOf(s) == MapOf(a + [x] + b) - {x.key}
  {
    PlugInorder(c, OnlyChild(t));
    RemovedContents(a, x, b);
  }

  lemma CutHeight(c: Ctx, t: Tree)
    requires t.Bin? && (t.l.Nil? || t.r.Nil?) && Avl(Plug(c, t))
    ensures CAvl(c, Height(t)) && Avl(OnlyChild(t)) && Height(t) == Height(OnlyChild(t)) + 1
  {
    PlugAvl(c, t);
  }

  /** What is left after erasing the pair at the root of t below c. */
  ghost predicate Without(s: seq<Pair>, x: Pair, s': seq<Pair>)
    requires Sorted(s)
  {
    && Sorted(s') && KeysValid(s') && |s'| == |s| - 1
    && TotalBytes(s) >= x.Bytes() && TotalBytes(s') == TotalBytes(s) - x.Bytes()
    && x.key in MapOf(s) && MapOf(s') == MapOf(s) - {x.key}
  }

  lemma CutInPlace(c: Ctx, t: Tree)
    requires t.Bin? && (t.l.Nil? || t.r.Nil?) && Sorted(Inorder(Plug(c, t))) && KeysValid(Inorder(Plug(c, t)))
    ensures Without(Inorder(Plug(c, t)), t.x, Inorder(Plug(c, OnlyChild(t))))
  {
    hide Sorted;
    hide KeysValid;
    hide TotalBytes;
    hide MapOf;
    hide Plug;
    PlugInorder(c, t);
    var a, b := Before(c) + Inorder(t.l), Inorder(t.r) + After(c);
    assert Inorder(Plug(c, t)) == a + [t.x] + b;
    assert Before(c) + Inorder(OnlyChild(t)) + After(c) == a + b;
    CutContents(c, t, a, t.x, b);
  }

  /** The exchange with the successor: the node now sits where the successor was,
      with no left child, and every balance is where it was. */
  lemma SwapShape(c: Ctx, t: Tree, c2: Ctx, u: Tree)
    requires t.Bin? && u.Bin? && u.l.Nil? && Plug(c, t) == Plug(c2, u) && OnlyLeft(c2, DownR(c, t))
    requires CDistinct(c2) && Distinct(u) && CNodes(c2) !! Nodes(u) && Avl(Plug(c, t))
    ensures var c', u' := SwapC(c2, t.n, u.n, t.x, u.x), SwapT(u, t.n, u.n, t.x, u.x);
      && t.n != u.n && u' == Bin(Nil, t.n, t.x, u.b, u.r)
      && SwapT(Plug(c, t), t.n, u.n, t.x, u.x) == Plug(c', u') && Avl(Plug(c', u'))
  {
    SuccessorPath(DownR(c, t), c2, u.n, u.x);
    SwapTElsewhere(u.r, t.n, u.n, t.x, u.x);
    SwapPlug(c2, u, t.n, u.n, t.x, u.x);
    SwapHeight(Plug(c, t), t.n, u.n, t.x, u.x);
  }

  lemma Regroup(a: seq<Pair>, x: Pair, y: Pair, i: seq<Pair>, f: seq<Pair>)
    ensures (a + [x]) + ([] + [y] + i) + f == a + [x] + ([y] + i + f)
    ensures (a + [y]) + i + f == a + ([y] + i + f)
  {
  }

  /** Cutting the node out there removes its pair and nothing else. */
  lemma CutAfterSwap(c: Ctx, t: Tree, c2: Ctx, u: Tree)
    requires t.Bin? && u.Bin? && u.l.Nil? && Plug(c, t) == Plug(c2, u) && OnlyLeft(c2, DownR(c, t))
    requires CDistinct(c2) && Distinct(u) && CNodes(c2) !! Nodes(u)
    requires Sorted(Inorder(Plug(c, t))) && KeysValid(Inorder(Plug(c, t)))
    ensures Without(Inorder(Plug(c, t)), t.x, Inorder(Plug(SwapC(c2, t.n, u.n, t.x, u.x), u.r)))
  {
    hide Sorted;
    hide KeysValid;
    hide TotalBytes;
    hide MapOf;
    hide Plug;
    SuccessorPath(DownR(c, t), c2, u.n, u.x);
    PlugInorder(c2, u);
    var c' := SwapC(c2, t.n, u.n, t.x, u.x);
    var a, b := Before(c) + Inorder(t.l), [u.x] + Inorder(u.r) + After(c2);
    hide SwapC;
    hide CDistinct;
    hide Distinct;
    hide OnlyLeft;
    Regroup(a, t.x, u.x, Inorder(u.r), After(c2));
    assert Inorder(u) == [] + [u.x] + Inorder(u.r);
    hide Inorder;
    CutContents(c', Bin(Nil, t.n, t.x, u.b, u.r), a, t.x, b);
  }

  lemma PathNodes(c: Ctx, d: Ctx)
    requires OnlyLeft(c, d)
    ensures CNodes(d) <= CNodes(c)
  {
  }

  /** The node and its successor are never in the positions swapLinks_ cannot handle. */
  lemma SuccessorApart(c: Ctx, t: Tree, c2: Ctx, u: Tree, m: Cells, root: Node?)
    requires Focus(c, t, m, root) && Focus(c2, u, m, root) && t.Bin? && u.Bin? && OnlyLeft(c2, DownR(c, t))
    ensures t.n in m && u.n in m && t.n != u.n
    ensures m[t.n].p != u.n
    ensures !Crossed(m, t.n, u.n)
  {
    var d := DownR(c, t);
    FocusCells(c, t, m, root);
    FocusCells(c2, u, m, root);
    PathNodes(c2, d);
    ParentIn(c);
    if c2.Lt? && c2 != d {
      PathNodes(c2.up, d);
    }
  }

  lemma FocusApart(c: Ctx, t: Tree, m: Cells, root: Node?)
    requires Focus(c, t, m, root)
    ensures CDistinct(c) && Distinct(t) && CNodes(c) !! Nodes(t)
  {
  }

  /** The exchange with the successor as a whole: it is allowed, and leaves the node where the cut can take it out. */
  lemma SwapReady(c: Ctx, t: Tree, c2: Ctx, u: Tree, m: Cells, root: Node?)
    requires Focus(c, t, m, root) && Focus(c2, u, m, root) && t.Bin? && u.Bin? && u.l.Nil?
    requires Plug(c, t) == Plug(c2, u) && OnlyLeft(c2, DownR(c, t)) && Avl(Plug(c, t))
    requires Sorted(Inorder(Plug(c, t))) && KeysValid(Inorder(Plug(c, t)))
    ensures t.n in m && u.n in m && t.n != u.n && m[t.n].p != u.n && !Crossed(m, t.n, u.n) && Consistent(m, root)
    ensures var c', t' := SwapC(c2, t.n, u.n, t.x, u.x), SwapT(u, t.n, u.n, t.x, u.x);
      && Focus(c', t', Swapped(m, t.n, u.n), Ren(root, t.n, u.n)) && t' == Bin(Nil, t.n, t.x, u.b, u.r)
      && Avl(Plug(c', t')) && Without(Inorder(Plug(c, t)), t.x, Inorder(Plug(c', OnlyChild(t'))))
  {
    hide Plug;
    hide Inorder;
    hide Avl;
    hide SwapC;
    hide SwapT;
    hide Swapped;
    hide Consistent;
    hide Without;
    hide Sorted;
    hide KeysValid;
    hide Crossed;
    hide Focus;
    FocusApart(c2, u, m, root);
    FocusCells(c, t, m, root);
    FocusCells(c2, u, m, root);
    SuccessorApart(c, t, c2, u, m, root);
    SwapShape(c, t, c2, u);
    CutAfterSwap(c, t, c2, u);
    PlugFocus(c, t, m, root);
    FocusConsistent(Plug(c, t), m, root);
    SwapFocus(Plug(c, t), m, root, t.n, u.n);
    PlugFocus(SwapC(c2, t.n, u.n, t.x, u.x), SwapT(u, t.n, u.n, t.x, u.x), Swapped(m, t.n, u.n), Ren(root, t.n, u.n));
  }
}
