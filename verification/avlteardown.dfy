/** deallocateTree_: the tree is freed without recursion and without a stack, by
    threading each left subtree to its root as the traversal goes down. */
module AvlTeardown {
  import opened AvlTree
  import opened AvlList

  /** The nodes of a tree in key order. */
  function NodeSeq(t: Tree): seq<Node> {
    match t
    case Nil => []
    case Bin(l, n, _, _, r) => NodeSeq(l) + [n] + NodeSeq(r)
  }

  /** What is still to be freed: trees in a row, the last right pointer of each
      leading to the root of the next. */
  datatype Chain = End | Seg(t: Tree, rest: Chain)

  function First(c: Chain): Node? {
    match c
    case End => null
    case Seg(t, rest) => if t.Nil? then First(rest) else t.n
  }

  function ChainNodes(c: Chain): set<Node> {
    match c
    case End => {}
    case Seg(t, rest) => Nodes(t) + ChainNodes(rest)
  }

  function Flat(c: Chain): seq<Node> {
    match c
    case End => []
    case Seg(t, rest) => NodeSeq(t) + Flat(rest)
  }

  /** No tree in the row is empty. */
  predicate Solid(c: Chain) {
    match c
    case End => true
    case Seg(t, rest) => t.Bin? && Solid(rest)
  }

  predicate ChainDistinct(c: Chain) {
    match c
    case End => true
    case Seg(t, rest) => Distinct(t) && Nodes(t) !! ChainNodes(rest) && ChainDistinct(rest)
  }

  /** The child pointers spell out t, except that the last right pointer is tail. */
  predicate Threaded(t: Tree, tail: Node?, m: Cells) {
    match t
    case Nil => true
    case Bin(l, n, _, _, r) =>
      && n in m && m[n].l == RootOf(l) && m[n].r == (if r.Nil? then tail else r.n)
      && Threaded(l, null, m) && Threaded(r, tail, m)
  }

  predicate ChainLinks(c: Chain, m: Cells) {
    match c
    case End => true
    case Seg(t, rest) => Threaded(t, First(rest), m) && ChainLinks(rest, m)
  }

  /** Everything the loop keeps. */
  predicate Pending(c: Chain, m: Cells) {
    Solid(c) && ChainDistinct(c) && ChainLinks(c, m) && m.Keys == ChainNodes(c)
  }

  /** Steps left: nodes to free, then left edges to thread. */
  function LeftEdges(t: Tree): nat {
    match t
    case Nil => 0
    case Bin(l, _, _, _, r) => LeftEdges(l) + LeftEdges(r) + if l.Nil? then 0 else 1
  }

  function ChainEdges(c: Chain): nat {
    match c
    case End => 0
    case Seg(t, rest) => LeftEdges(t) + ChainEdges(rest)
  }

  // ---------- framing ----------

  lemma ThreadedFrame(t: Tree, tail: Node?, m: Cells, m': Cells)
    requires Threaded(t, tail, m)
    requires forall k :: k in Nodes(t) && k in m ==> k in m' && m'[k] == m[k]
    ensures Threaded(t, tail, m')
  {
  }

  lemma ChainFrame(c: Chain, m: Cells, m': Cells)
    requires ChainLinks(c, m)
    requires forall k :: k in ChainNodes(c) && k in m ==> k in m' && m'[k] == m[k]
    ensures ChainLinks(c, m')
  {
    match c
    case End =>
    case Seg(t, rest) =>
      ThreadedFrame(t, First(rest), m, m');
      ChainFrame(rest, m, m');
  }

  lemma LinksThreaded(t: Tree, p: Node?, m: Cells)
    requires Links(t, p, m)
    ensures Threaded(t, null, m)
  {
  }

  // ---------- the two steps ----------

  /** A node without left child is freed; its right subtree comes next. */
  function AfterFree(c: Chain): Chain
    requires c.Seg? && c.t.Bin?
  {
    if c.t.r.Nil? then c.rest else Seg(c.t.r, c.rest)
  }

  lemma FreeStep(c: Chain, m: Cells)
    requires Pending(c, m) && c.Seg? && c.t.l.Nil?
    ensures var n := c.t.n;
      && n in m && m[n].l == null && m[n].r == First(AfterFree(c))
      && Pending(AfterFree(c), m - {n})
      && Flat(c) == [n] + Flat(AfterFree(c))
  {
    var n := c.t.n;
    var m' := m - {n};
    ThreadedFrame(c.t.r, First(c.rest), m, m');
    ChainFrame(c.rest, m, m');
    assert NodeSeq(c.t) == [] + [n] + NodeSeq(c.t.r);
    assert m'.Keys == ChainNodes(AfterFree(c));
  }

  /** The last node on the right spine. */
  function Rightmost(t: Tree): Node
    requires t.Bin?
  {
    if t.r.Nil? then t.n else Rightmost(t.r)
  }

  lemma {:induction false} Rethread(t: Tree, m: Cells, tail: Node?)
    requires t.Bin? && Threaded(t, null, m) && Distinct(t)
    ensures Rightmost(t) in Nodes(t) && Rightmost(t) in m && m[Rightmost(t)].r == null
    ensures Threaded(t, tail, PutR(m, Rightmost(t), tail))
  {
    var q := Rightmost(t);
    if t.r.Bin? {
      Rethread(t.r, m, tail);
      assert t.r.n in Nodes(t.r);
    }
    var m' := PutR(m, q, tail);
    assert q !in Nodes(t.l);
    ThreadedFrame(t.l, null, m, m');
  }

  function AfterThread(c: Chain): Chain
    requires c.Seg? && c.t.Bin?
  {
    Seg(c.t.l, Seg(c.t.(l := Nil), c.rest))
  }

  /** The row as a sequence, a set and a measure: unchanged but for one left edge. */
  lemma ThreadShape(c: Chain)
    requires Solid(c) && ChainDistinct(c) && c.Seg? && c.t.l.Bin?
    ensures Solid(AfterThread(c)) && ChainDistinct(AfterThread(c))
    ensures Flat(AfterThread(c)) == Flat(c) && ChainNodes(AfterThread(c)) == ChainNodes(c)
    ensures ChainEdges(AfterThread(c)) < ChainEdges(c)
  {
    hide Nodes;
    hide Distinct;
    hide NodeSeq;
    hide LeftEdges;
    WithoutLeft(c.t);
    RowShape(c.t.l, c.t.(l := Nil), c.rest, c);
  }

  /** A node and its right subtree, apart from the left one. */
  lemma WithoutLeft(t: Tree)
    requires t.Bin? && t.l.Bin?
    ensures var u := t.(l := Nil);
      && NodeSeq(t) == NodeSeq(t.l) + NodeSeq(u) && Nodes(t) == Nodes(t.l) + Nodes(u)
      && LeftEdges(t) > LeftEdges(t.l) + LeftEdges(u)
      && (Distinct(t) ==> Distinct(t.l) && Distinct(u) && Nodes(t.l) !! Nodes(u))
  {
    var u := t.(l := Nil);
    assert NodeSeq(u) == [] + [t.n] + NodeSeq(t.r);
    assert Nodes(u) == {t.n} + Nodes(t.r);
    assert LeftEdges(u) == LeftEdges(t.r);
  }

  lemma RowShape(l: Tree, u: Tree, rest: Chain, c: Chain)
    requires Solid(c) && ChainDistinct(c) && c.Seg? && c.rest == rest && l.Bin? && u.Bin?
    requires NodeSeq(c.t) == NodeSeq(l) + NodeSeq(u) && Nodes(c.t) == Nodes(l) + Nodes(u)
    requires LeftEdges(c.t) > LeftEdges(l) + LeftEdges(u)
    requires Distinct(c.t) ==> Distinct(l) && Distinct(u) && Nodes(l) !! Nodes(u)
    ensures var c' := Seg(l, Seg(u, rest));
      && Solid(c') && ChainDistinct(c') && Flat(c') == Flat(c) && ChainNodes(c') == ChainNodes(c)
      && ChainEdges(c') < ChainEdges(c)
  {
    hide Nodes;
    hide Distinct;
    hide NodeSeq;
    hide LeftEdges;
    var d := Seg(u, rest);
    assert Solid(d) && ChainDistinct(d) && ChainNodes(d) == Nodes(u) + ChainNodes(rest);
    assert Flat(d) == NodeSeq(u) + Flat(rest) && ChainEdges(d) == LeftEdges(u) + ChainEdges(rest);
  }

  lemma ThreadLinks(c: Chain, m: Cells)
    requires Pending(c, m) && c.Seg? && c.t.l.Bin?
    ensures var n, q := c.t.n, Rightmost(c.t.l);
      && n in m && m[n].l == c.t.l.n && Threaded(c.t.l, null, m)
      && q in m && m[q].r == null && q != n
      && ChainLinks(AfterThread(c), PutL(PutR(m, q, n), n, null))
  {
    var n, q := c.t.n, Rightmost(c.t.l);
    Rethread(c.t.l, m, n);
    var m1 := PutR(m, q, n);
    var m2 := PutL(m1, n, null);
    assert q in Nodes(c.t.l) && n !in Nodes(c.t.l);
    ThreadedFrame(c.t.l, n, m1, m2);
    ThreadedFrame(c.t.r, First(c.rest), m, m2);
    ChainFrame(c.rest, m, m2);
    var u := c.t.(l := Nil);
    assert Threaded(u, First(c.rest), m2);
    assert ChainLinks(Seg(u, c.rest), m2);
  }

  lemma ThreadStep(c: Chain, m: Cells)
    requires Pending(c, m) && c.Seg? && c.t.l.Bin?
    ensures var n, q := c.t.n, Rightmost(c.t.l);
      && n in m && m[n].l == c.t.l.n && Threaded(c.t.l, null, m)
      && q in m && m[q].r == null && q != n
      && Pending(AfterThread(c), PutL(PutR(m, q, n), n, null))
      && Flat(AfterThread(c)) == Flat(c) && ChainNodes(AfterThread(c)) == ChainNodes(c)
      && ChainEdges(AfterThread(c)) < ChainEdges(c)
  {
    ThreadShape(c);
    ThreadLinks(c, m);
  }

  // ---------- the loop ----------

  /** The snapshot is what the live nodes hold. */
  ghost predicate Live(m: Cells)
    reads m.Keys
  {
    forall k :: k in m ==> k.l == m[k].l && k.r == m[k].r
  }

  /** Reading a link is allowed only of a node that has not been freed. */
  function LeftOf(k: Node, ghost m: Cells): (v: Node?)
    requires Live(m) && k in m
    reads m.Keys
    ensures v == m[k].l
  {
    k.l
  }

  function RightOf(k: Node, ghost m: Cells): (v: Node?)
    requires Live(m) && k in m
    reads m.Keys
    ensures v == m[k].r
  {
    k.r
  }

  method Thread(q: Node, node: Node, ghost m: Cells) returns (ghost m': Cells)
    requires Live(m) && q in m && node in m
    modifies q`r, node`l
    ensures m' == PutL(PutR(m, q, node), node, null) && Live(m')
  {
    q.r := node;
    node.l := null;
    m' := PutL(PutR(m, q, node), node, null);
  }

  /** The inner loop: to the end of the right spine of the left subtree. The traversed
      links never lead back to node. */
  method FindRightmost(start: Node, node: Node, ghost t: Tree, ghost m: Cells) returns (q: Node)
    requires Live(m) && t.Bin? && t.n == start && Threaded(t, null, m) && node !in Nodes(t)
    ensures q == Rightmost(t) && q in m && m[q].r == null
  {
    q := start;
    ghost var u := t;
    while RightOf(q, m) != null && RightOf(q, m) != node
      invariant u.Bin? && u.n == q && q in m && Threaded(u, null, m) && node !in Nodes(u)
      invariant Rightmost(u) == Rightmost(t)
      decreases u
    {
      q := RightOf(q, m);
      u := u.r;
    }
    RootIn(u.r);
  }

  function Whole(t: Tree): Chain {
    if t.Nil? then End else Seg(t, End)
  }

  lemma WholePending(t: Tree, p: Node?, m: Cells)
    requires Links(t, p, m) && Distinct(t) && m.Keys == Nodes(t)
    ensures Pending(Whole(t), m) && Flat(Whole(t)) == NodeSeq(t) && First(Whole(t)) == RootOf(t)
  {
    LinksThreaded(t, p, m);
    assert Flat(Whole(t)) == NodeSeq(t) + [] || t.Nil?;
  }

  lemma StillLive(m: Cells, n: Node)
    requires Live(m)
    ensures Live(m - {n})
  {
  }

  lemma AppendFlat(a: seq<Node>, n: Node, b: seq<Node>)
    ensures (a + [n]) + b == a + ([n] + b)
  {
  }

  lemma LeafOrBranch(c: Chain, m: Cells)
    requires Pending(c, m) && c.Seg? && c.t.Bin? && c.t.n in m
    ensures m[c.t.n].l == null <==> c.t.l.Nil?
    ensures c.t.l.Bin? ==> First(AfterThread(c)) == c.t.l.n
  {
  }

  lemma Head(c: Chain, m: Cells)
    requires Pending(c, m) && First(c) != null
    ensures c.Seg? && c.t.Bin? && c.t.n == First(c) && c.t.n in m && ChainDistinct(c)
    ensures c.t.l.Bin? ==> c.t.n !in Nodes(c.t.l)
  {
  }

  lemma Done(c: Chain, m: Cells)
    requires Pending(c, m) && First(c) == null
    ensures Flat(c) == [] && m == map[]
  {
  }

  /** Freed once each: the sequence lists every node, and is no longer than their number. */
  lemma {:induction false} NodeSeqExact(t: Tree)
    requires Distinct(t)
    ensures forall k :: k in NodeSeq(t) <==> k in Nodes(t)
    ensures |NodeSeq(t)| == |Nodes(t)|
  {
    if t.Bin? {
      NodeSeqExact(t.l);
      NodeSeqExact(t.r);
      assert |Nodes(t.l) + {t.n}| == |Nodes(t.l)| + 1;
    }
  }

  /** Frees every node exactly once, in key order. */
  method DeallocateTree(root: Node?, ghost t: Tree, ghost p: Node?, ghost m0: Cells) returns (ghost freed: seq<Node>)
    requires Live(m0) && Links(t, p, m0) && Distinct(t) && m0.Keys == Nodes(t) && root == RootOf(t)
    modifies m0.Keys
    ensures freed == NodeSeq(t)
  {
    ghost var m := m0;
    ghost var c := Whole(t);
    WholePending(t, p, m0);
    hide Flat;
    hide ChainEdges;
    hide NodeSeq;
    hide Pending;
    hide Threaded;
    hide ChainNodes;
    hide Nodes;
    hide Links;
    hide Distinct;
    hide Rightmost;
    hide Whole;
    hide Live;
    hide ChainDistinct;
    hide First;
    hide AfterFree;
    hide AfterThread;
    hide PutL;
    hide PutR;
    freed := [];
    var node := root;
    while node != null
      invariant Live(m) && m.Keys <= m0.Keys && Pending(c, m) && node == First(c)
      invariant freed + Flat(c) == NodeSeq(t)
      decreases |ChainNodes(c)|, ChainEdges(c)
    {
      Head(c, m);
      if LeftOf(node, m) == null {
        LeafOrBranch(c, m);
        FreeStep(c, m);
        FreedNodes(c);
        StillLive(m, c.t.n);
        AppendFlat(freed, c.t.n, Flat(AfterFree(c)));
        node := RightOf(node, m);
        freed := freed + [c.t.n];
        m := m - {c.t.n};
        c := AfterFree(c);
      } else {
        LeafOrBranch(c, m);
        ThreadStep(c, m);
        var l := LeftOf(node, m);
        var q := FindRightmost(l, node, c.t.l, m);
        m := Thread(q, node, m);
        node := l;
        c := AfterThread(c);
      }
    }
    Done(c, m);
  }

  lemma FreedNodes(c: Chain)
    requires c.Seg? && c.t.Bin? && c.t.l.Nil? && ChainDistinct(c)
    ensures ChainNodes(c) == {c.t.n} + ChainNodes(AfterFree(c)) && c.t.n !in ChainNodes(AfterFree(c))
    ensures |ChainNodes(AfterFree(c))| < |ChainNodes(c)|
  {
  }

  /** clear(): every node freed, and the list empty and usable again. */
  method Clear(list: AVLList) returns (ghost freed: seq<Node>)
    requires list.Valid()
    modifies list, list.cells.Keys
    ensures list.Valid() && list.Contents() == [] && list.count == 0 && list.bytes == 0
    ensures freed == NodeSeq(old(list.shape))
  {
    freed := DeallocateTree(list.root, list.shape, null, list.cells);
    list.count, list.bytes, list.root := 0, 0, null;
    list.cells, list.shape := map[], Nil;
  }
}
