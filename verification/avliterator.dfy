/** Walking the AVL memtable: find, the iterator's ++ and --, and height(). */
module AvlIterator {
  import opened Keys
  import opened Pairs
  import opened AvlTree
  import opened AvlSearch
  import opened AvlErase
  import opened AvlList

  /** Where the root of the focus stands in key order. */
  function Pos(c: Ctx, t: Tree): nat
    requires t.Bin?
  {
    |Before(c)| + |Inorder(t.l)|
  }

  lemma PosRange(c: Ctx, t: Tree)
    requires t.Bin?
    ensures Pos(c, t) < |Inorder(Plug(c, t))| && Inorder(Plug(c, t))[Pos(c, t)] == t.x
  {
    PlugInorder(c, t);
  }

  /** Just past the last pair of the focus. */
  function EndPos(c: Ctx, t: Tree): nat {
    |Before(c)| + |Inorder(t)|
  }

  lemma Climb(c: Ctx, t: Tree)
    requires !c.Top?
    ensures c.Lt? ==> Pos(c.up, UpTree(c, t)) == EndPos(c, t)
    ensures c.Rt? ==> EndPos(c.up, UpTree(c, t)) == EndPos(c, t)
    ensures c.Rt? ==> Pos(c.up, UpTree(c, t)) + 1 == |Before(c)|
    ensures c.Lt? ==> |Before(c.up)| == |Before(c)|
  {
  }

  lemma TopEnd(t: Tree)
    ensures EndPos(Top, t) == |Inorder(Plug(Top, t))| && |Before(Top)| == 0
  {
  }

  lemma AfterRoot(c: Ctx, t: Tree)
    requires t.Bin?
    ensures |Before(DownR(c, t))| == Pos(c, t) + 1
  {
  }

  lemma NoRight(c: Ctx, t: Tree)
    requires t.Bin? && t.r.Nil?
    ensures EndPos(c, t) == Pos(c, t) + 1
  {
    assert Inorder(t.r) == [];
  }

  /** The leftmost node of a focus is the first pair of it. */
  lemma {:induction false} LeftmostPos(c: Ctx, d: Ctx, t: Tree)
    requires OnlyLeft(c, d) && t.Bin? && t.l.Nil?
    ensures Pos(c, t) == |Before(d)|
    decreases c
  {
    if c != d {
      LeftmostPos(c.up, d, t);
    }
  }

  /** getMaxValueNode: the last pair of the focus. */
  method MaxValueNode(list: AVLList, start: Node, ghost c0: Ctx, ghost t0: Tree)
    returns (node: Node, ghost c: Ctx, ghost t: Tree)
    requires list.Focused(c0, t0) && t0.Bin? && t0.n == start
    ensures list.Focused(c, t) && t.Bin? && t.n == node && Plug(c, t) == Plug(c0, t0)
    ensures Pos(c, t) + 1 == EndPos(c0, t0)
  {
    hide Focus;
    hide AVLList.Synced;
    hide Plug;
    node := start;
    c, t := c0, t0;
    FocusCells(c, t, list.cells, list.root);
    while list.R(node) != null
      invariant list.Focused(c, t) && t.Bin? && t.n == node && node in list.cells
      invariant list.cells[node].r == RootOf(t.r) && Plug(c, t) == Plug(c0, t0) && EndPos(c, t) == EndPos(c0, t0)
      decreases t
    {
      node := list.R(node);
      FocusDown(c, t, list.cells, list.root);
      PlugDown(c, t);
      c, t := DownR(c, t), t.r;
      FocusCells(c, t, list.cells, list.root);
    }
    NoRight(c, t);
  }

  /** One step up from the focus: pointers and positions. */
  lemma Upward(c: Ctx, t: Tree, m: Cells, root: Node?)
    requires Focus(c, t, m, root) && t.Bin?
    ensures t.n in m && m[t.n].p == ParentOf(c)
    ensures c.Top? ==> |Before(c)| == 0 && EndPos(c, t) == |Inorder(Plug(c, t))|
    ensures !c.Top? ==>
      && c.n in m && (m[c.n].l == t.n <==> c.Lt?) && (m[c.n].r == t.n <==> c.Rt?)
      && Focus(c.up, UpTree(c, t), m, root) && UpTree(c, t).Bin? && UpTree(c, t).n == c.n
      && m[c.n].p == ParentOf(c.up) && Plug(c.up, UpTree(c, t)) == Plug(c, t)
    ensures c.Lt? ==> Pos(c.up, UpTree(c, t)) == EndPos(c, t) && |Before(c.up)| == |Before(c)|
    ensures c.Rt? ==> EndPos(c.up, UpTree(c, t)) == EndPos(c, t) && Pos(c.up, UpTree(c, t)) + 1 == |Before(c)|
  {
    FocusCells(c, t, m, root);
    if c.Top? {
      TopEnd(t);
    } else {
      FocusUp(c, t, m, root);
      FocusCells(c.up, UpTree(c, t), m, root);
      Climb(c, t);
      PlugUp(c, t);
    }
  }

  /** Up while coming from the right: to the first pair after the focus. */
  method ClimbRight(list: AVLList, node: Node, ghost c: Ctx, ghost t: Tree)
    returns (parent: Node?, ghost c': Ctx, ghost t': Tree)
    requires list.Focused(c, t) && t.Bin? && t.n == node
    ensures parent == null ==> EndPos(c, t) == |Inorder(Plug(c, t))|
    ensures parent != null ==> list.Focused(c', t') && t'.Bin? && t'.n == parent && Plug(c', t') == Plug(c, t)
    ensures parent != null ==> Pos(c', t') == EndPos(c, t)
  {
    hide Focus;
    hide AVLList.Synced;
    hide Plug;
    hide Inorder;
    hide Before;
    hide Pos;
    hide EndPos;
    hide UpTree;
    ghost var m, root := list.cells, list.root;
    Upward(c, t, m, root);
    var cur := node;
    parent := list.P(node);
    c', t' := c, t;
    while parent != null && cur == list.R(parent)
      invariant list.Synced() && Focus(c', t', m, root) && t'.Bin? && t'.n == cur && parent == ParentOf(c')
      invariant parent != null ==> parent in m
      invariant Plug(c', t') == Plug(c, t) && EndPos(c', t') == EndPos(c, t)
      decreases c'
    {
      Upward(c', t', m, root);
      cur := parent;
      parent := list.P(parent);
      c', t' := c'.up, UpTree(c', t');
    }
    Upward(c', t', m, root);
    if parent != null {
      c', t' := c'.up, UpTree(c', t');
    }
  }

  /** getSuccessorNode: one position forward, or null after the last pair. */
  method SuccessorNode(list: AVLList, node: Node, ghost c: Ctx, ghost t: Tree)
    returns (next: Node?, ghost c': Ctx, ghost t': Tree)
    requires list.Focused(c, t) && t.Bin? && t.n == node
    ensures next == null ==> Pos(c, t) + 1 == |Inorder(Plug(c, t))|
    ensures next != null ==> list.Focused(c', t') && t'.Bin? && t'.n == next && Plug(c', t') == Plug(c, t)
    ensures next != null ==> Pos(c', t') == Pos(c, t) + 1
  {
    FocusCells(c, t, list.cells, list.root);
    FocusDown(c, t, list.cells, list.root);
    PlugDown(c, t);
    hide Focus;
    hide AVLList.Synced;
    hide Plug;
    hide Inorder;
    hide Before;
    hide Pos;
    hide EndPos;
    hide UpTree;
    var r := list.R(node);
    if r != null {
      AfterRoot(c, t);
      next, c', t' := list.MinNode(r, DownR(c, t), t.r);
      LeftmostPos(c', DownR(c, t), t');
      return;
    }
    NoRight(c, t);
    next, c', t' := ClimbRight(list, node, c, t);
  }

  /** Up while coming from the left: to the last pair before the focus. */
  method ClimbLeft(list: AVLList, node: Node, ghost c: Ctx, ghost t: Tree)
    returns (parent: Node?, ghost c': Ctx, ghost t': Tree)
    requires list.Focused(c, t) && t.Bin? && t.n == node
    ensures parent == null ==> |Before(c)| == 0
    ensures parent != null ==> list.Focused(c', t') && t'.Bin? && t'.n == parent && Plug(c', t') == Plug(c, t)
    ensures parent != null ==> Pos(c', t') + 1 == |Before(c)|
  {
    hide Focus;
    hide AVLList.Synced;
    hide Plug;
    hide Inorder;
    hide Before;
    hide Pos;
    hide EndPos;
    hide UpTree;
    ghost var m, root := list.cells, list.root;
    Upward(c, t, m, root);
    var cur := node;
    parent := list.P(node);
    c', t' := c, t;
    while parent != null && cur == list.L(parent)
      invariant list.Synced() && Focus(c', t', m, root) && t'.Bin? && t'.n == cur && parent == ParentOf(c')
      invariant parent != null ==> parent in m
      invariant Plug(c', t') == Plug(c, t) && |Before(c')| == |Before(c)|
      decreases c'
    {
      Upward(c', t', m, root);
      cur := parent;
      parent := list.P(parent);
      c', t' := c'.up, UpTree(c', t');
    }
    Upward(c', t', m, root);
    if parent != null {
      c', t' := c'.up, UpTree(c', t');
    }
  }

  /** getPredecessorNode: one position back, or null before the first pair. */
  method PredecessorNode(list: AVLList, node: Node, ghost c: Ctx, ghost t: Tree)
    returns (prev: Node?, ghost c': Ctx, ghost t': Tree)
    requires list.Focused(c, t) && t.Bin? && t.n == node
    ensures prev == null ==> Pos(c, t) == 0
    ensures prev != null ==> list.Focused(c', t') && t'.Bin? && t'.n == prev && Plug(c', t') == Plug(c, t)
    ensures prev != null ==> Pos(c', t') + 1 == Pos(c, t)
  {
    FocusCells(c, t, list.cells, list.root);
    FocusDown(c, t, list.cells, list.root);
    PlugDown(c, t);
    hide Focus;
    hide AVLList.Synced;
    hide Plug;
    hide Before;
    var l := list.L(node);
    if l != null {
      prev, c', t' := MaxValueNode(list, l, DownL(c, t), t.l);
      return;
    }
    prev, c', t' := ClimbLeft(list, node, c, t);
  }

  lemma SurroundedLeft(c: Ctx, t: Tree, key: Key)
    requires t.Bin? && t.l.Nil? && Surrounds(DownL(c, t), key)
    ensures LowerBound(Inorder(Plug(c, t)), key, Pos(c, t))
  {
    PlugInorder(DownL(c, t), t.l);
    PlugDown(c, t);
    var s := Inorder(Plug(c, t));
    assert s == Before(c) + [] + After(DownL(c, t));
    hide Less;
    forall j | Pos(c, t) <= j < |s| ensures !Less(s[j].key, key) {
      assert s[j] == After(DownL(c, t))[j - Pos(c, t)];
      LessAntisymmetric(key, s[j].key);
    }
  }

  lemma SurroundedRight(c: Ctx, t: Tree, key: Key)
    requires t.Bin? && t.r.Nil? && Surrounds(DownR(c, t), key)
    ensures LowerBound(Inorder(Plug(c, t)), key, Pos(c, t) + 1)
  {
    PlugInorder(DownR(c, t), t.r);
    PlugDown(c, t);
    var s := Inorder(Plug(c, t));
    assert s == Before(DownR(c, t)) + [] + After(c);
    hide Less;
    forall j | Pos(c, t) + 1 <= j < |s| ensures !Less(s[j].key, key) {
      assert s[j] == After(c)[j - Pos(c, t) - 1];
      LessAntisymmetric(key, s[j].key);
    }
  }

  lemma ExactHit(c: Ctx, t: Tree)
    requires t.Bin? && Sorted(Inorder(Plug(c, t)))
    ensures LowerBound(Inorder(Plug(c, t)), t.x.key, Pos(c, t))
  {
    PosRange(c, t);
    var s := Inorder(Plug(c, t));
    hide Less;
    LessIrreflexive(t.x.key);
    forall j | Pos(c, t) < j < |s| ensures !Less(s[j].key, t.x.key) {
      LessAntisymmetric(t.x.key, s[j].key);
    }
  }

  /** find: an iterator to the first pair whose key is not below key, or the end. */
  method Find(list: AVLList, key: Key) returns (node: Node?, ghost c: Ctx, ghost t: Tree, ghost i: nat)
    requires list.Valid() && key != []
    ensures LowerBound(list.Contents(), key, i) && (node == null <==> i == |list.Contents()|)
    ensures node != null ==> list.Focused(c, t) && t.Bin? && t.n == node && Plug(c, t) == list.shape && Pos(c, t) == i
  {
    hide Focus;
    hide AVLList.Synced;
    hide Plug;
    hide Inorder;
    hide Avl;
    hide Less;
    hide Pos;
    if list.root == null {
      list.EmptyMap();
      return null, Top, Nil, 0;
    }
    var n, cmp;
    n, cmp, c, t := list.LocateLeaf(key);
    PosRange(c, t);
    if cmp > 0 {
      SurroundedLeft(c, t, key);
      return n, c, t, Pos(c, t);
    }
    if cmp < 0 {
      SurroundedRight(c, t, key);
      i := Pos(c, t) + 1;
      node, c, t := SuccessorNode(list, n, c, t);
      if node != null {
        PosRange(c, t);
      }
      return;
    }
    SignLess(t.x.key, key);
    ExactHit(c, t);
    return n, c, t, Pos(c, t);
  }

  /** Reading from find(key) with ++ until the end gives every pair from there on, in order. */
  method ReadFrom(list: AVLList, key: Key) returns (out: seq<Pair>, ghost i: nat)
    requires list.Valid() && key != []
    ensures LowerBound(list.Contents(), key, i) && out == list.Contents()[i..]
  {
    hide Focus;
    hide AVLList.Synced;
    hide Plug;
    hide Inorder;
    hide Avl;
    hide Less;
    hide LowerBound;
    hide Pos;
    var node;
    ghost var c, t;
    node, c, t, i := Find(list, key);
    out := [];
    ghost var s, j := list.Contents(), i;
    LowerBoundRange(s, key, i);
    while node != null
      invariant i <= j <= |s| && out == s[i..j] && (node == null <==> j == |s|)
      invariant node != null ==> list.Focused(c, t) && t.Bin? && t.n == node && Plug(c, t) == list.shape && Pos(c, t) == j
      decreases |s| - j
    {
      PosRange(c, t);
      FocusCells(c, t, list.cells, list.root);
      out := out + [list.Data(node)];
      assert s[i..j + 1] == s[i..j] + [s[j]];
      node, c, t := SuccessorNode(list, node, c, t);
      j := j + 1;
      if node != null {
        PosRange(c, t);
      }
    }
  }

  lemma LowerBoundRange(s: seq<Pair>, key: Key, i: nat)
    requires LowerBound(s, key, i)
    ensures i <= |s|
  {
  }

  // ---------- height ----------

  function Fib(n: nat): nat {
    if n < 2 then n else Fib(n - 1) + Fib(n - 2)
  }

  lemma {:induction false} FibMonotone(a: nat, b: nat)
    requires a <= b
    ensures Fib(a) <= Fib(b)
    decreases b
  {
    if b >= 2 && a < b {
      FibMonotone(a, b - 1);
    }
  }

  /** A balanced tree of height h holds at least Fib(h + 2) - 1 pairs. */
  lemma {:induction false} AvlSize(t: Tree)
    requires Avl(t)
    ensures |Inorder(t)| + 1 >= Fib(Height(t) + 2)
  {
    hide Inorder;
    hide Fib;
    hide Avl;
    hide Height;
    SizeParts(t);
    if t.Bin? {
      AvlSize(t.l);
      AvlSize(t.r);
      FibSum(Height(t.l), Height(t.r));
    }
  }

  lemma SizeParts(t: Tree)
    requires Avl(t)
    ensures t.Nil? ==> Inorder(t) == [] && Fib(Height(t) + 2) == 1
    ensures t.Bin? ==>
      && Avl(t.l) && Avl(t.r) && -1 <= Height(t.l) - Height(t.r) <= 1
      && Height(t) == 1 + Max(Height(t.l), Height(t.r)) && |Inorder(t)| == |Inorder(t.l)| + 1 + |Inorder(t.r)|
  {
  }

  lemma {:induction false} FibSum(a: nat, b: nat)
    requires -1 <= a - b <= 1
    ensures Fib(a + 2) + Fib(b + 2) >= Fib(1 + Max(a, b) + 2)
  {
    var h := 1 + Max(a, b);
    assert Fib(h + 2) == Fib(h + 1) + Fib(h);
    FibMonotone(h, a + 2);
    FibMonotone(h, b + 2);
    hide Fib;
  }

  /** height(): following the stored balances finds the longest path. */
  method HeightOf(list: AVLList) returns (height: nat)
    requires list.Valid()
    ensures height == Height(list.shape) && list.count + 1 >= Fib(height + 2)
  {
    hide Focus;
    hide AVLList.Synced;
    AvlSize(list.shape);
    hide Fib;
    hide Inorder;
    height := 0;
    var node := list.root;
    ghost var c, t := Top, list.shape;
    FocusCells(c, t, list.cells, list.root);
    while node != null
      invariant list.Focused(c, t) && node == RootOf(t) && Avl(t) && height + Height(t) == Height(list.shape)
      decreases t
    {
      height := height + 1;
      FocusCells(c, t, list.cells, list.root);
      FocusDown(c, t, list.cells, list.root);
      if list.Balance(node) < 0 {
        node := list.L(node);
        c, t := DownL(c, t), t.l;
      } else {
        node := list.R(node);
        c, t := DownR(c, t), t.r;
      }
    }
  }
}
