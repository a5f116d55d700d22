/** The AVL memtable of hm4/avllist.cc: parent pointers, stored balances and
    non-recursive loops, proved against the tree and map they stand for. */
module AvlList {
  import opened Keys
  import opened Pairs
  import opened AvlTree
  import opened AvlBalance
  import opened AvlSearch
  import opened AvlEdit
  import opened AvlSwap
  import opened AvlErase
  import opened LcpCompare

  class AVLList {
    var root: Node?
    var count: nat
    var bytes: nat
    /** The tree that the pointers spell out. */
    ghost var shape: Tree
    /** Snapshot of every node of the tree. */
    ghost var cells: Cells

    /** The snapshot is what the nodes hold. */
    ghost predicate Synced()
      reads `root, `cells, cells.Keys
    {
      && ClosedCells(cells, root)
      && forall k :: k in cells ==>
           k.l == cells[k].l && k.r == cells[k].r && k.p == cells[k].p && k.balance == cells[k].b && k.data == cells[k].x
    }

    ghost predicate Focused(c: Ctx, t: Tree)
      reads `root, `cells, cells.Keys
    {
      Synced() && Focus(c, t, cells, root)
    }

    /** Pointer surgery leaves the counters and the ghost tree alone. */
    twostate predicate Kept()
      reads this
    {
      count == old(count) && bytes == old(bytes) && shape == old(shape)
    }

    /** The stored pairs, in key order. */
    ghost function Contents(): seq<Pair>
      reads this
    {
      Inorder(shape)
    }

    ghost predicate Valid()
      reads this, cells.Keys
    {
      && Focused(Top, shape) && Avl(shape)
      && Sorted(Contents()) && KeysValid(Contents())
      && count == |Contents()| && bytes == TotalBytes(Contents())
    }

    constructor ()
      ensures Valid() && Contents() == [] && cells == map[]
    {
      root, count, bytes := null, 0, 0;
      cells, shape := map[], Nil;
    }

    // ---------- node fields ----------

    function L(k: Node): (v: Node?)
      requires Synced() && k in cells
      reads `root, `cells, cells.Keys
      ensures v == cells[k].l && (v != null ==> v in cells)
    {
      k.l
    }

    function R(k: Node): (v: Node?)
      requires Synced() && k in cells
      reads `root, `cells, cells.Keys
      ensures v == cells[k].r && (v != null ==> v in cells)
    {
      k.r
    }

    function P(k: Node): (v: Node?)
      requires Synced() && k in cells
      reads `root, `cells, cells.Keys
      ensures v == cells[k].p && (v != null ==> v in cells)
    {
      k.p
    }

    function Balance(k: Node): (v: int)
      requires Synced() && k in cells
      reads `root, `cells, cells.Keys
      ensures v == cells[k].b
    {
      k.balance
    }

    method SetL(k: Node, v: Node?)
      requires Synced() && k in cells && (v != null ==> v in cells)
      modifies `cells, k`l
      ensures Kept()
      ensures Synced() && cells == PutL(old(cells), k, v) && root == old(root)
    {
      k.l := v;
      cells := PutL(cells, k, v);
    }

    method SetR(k: Node, v: Node?)
      requires Synced() && k in cells && (v != null ==> v in cells)
      modifies `cells, k`r
      ensures Kept()
      ensures Synced() && cells == PutR(old(cells), k, v) && root == old(root)
    {
      k.r := v;
      cells := PutR(cells, k, v);
    }

    method SetP(k: Node, v: Node?)
      requires Synced() && k in cells && (v != null ==> v in cells)
      modifies `cells, k`p
      ensures Kept()
      ensures Synced() && cells == PutP(old(cells), k, v) && root == old(root)
    {
      k.p := v;
      cells := PutP(cells, k, v);
    }

    method SetBalance(k: Node, v: int)
      requires Synced() && k in cells
      modifies `cells, k`balance
      ensures Kept()
      ensures Synced() && cells == PutB(old(cells), k, v) && root == old(root)
    {
      k.balance := v;
      cells := PutB(cells, k, v);
    }

    method AdoptP(child: Node?, parent: Node?)
      requires Synced() && (child != null ==> child in cells) && (parent != null ==> parent in cells)
      modifies `cells, (if child == null then {} else {child})`p
      ensures Kept()
      ensures Synced() && cells == PutP(old(cells), child, parent) && root == old(root)
    {
      if child != null {
        SetP(child, parent);
      }
    }

    /** fixParentAndChildren_<1,0,0> */
    method FixParent(node: Node, original: Node)
      requires Synced() && node in cells
      modifies `root, `cells, cells.Keys`l, cells.Keys`r
      ensures Kept()
      ensures Synced() && cells == FixP(old(cells), node, original)
      ensures root == FixRoot(old(cells), old(root), node)
    {
      var parent := node.p;
      if parent == null {
        root := node;
      } else if parent.l == original {
        SetL(parent, node);
      } else {
        SetR(parent, node);
      }
    }

    /** fixParentAndChildren_<0,1,0> */
    method FixL(node: Node)
      requires Synced() && node in cells
      modifies `cells, cells.Keys`p
      ensures Kept()
      ensures root == old(root)
      ensures Synced() && cells == PutP(old(cells), old(cells)[node].l, node)
    {
      AdoptP(node.l, node);
    }

    /** fixParentAndChildren_<0,0,1> */
    method FixR(node: Node)
      requires Synced() && node in cells
      modifies `cells, cells.Keys`p
      ensures Kept()
      ensures root == old(root)
      ensures Synced() && cells == PutP(old(cells), old(cells)[node].r, node)
    {
      AdoptP(node.r, node);
    }

    /** fixParentAndChildren_<1,1,1> */
    method FixParentAndChildren(node: Node, original: Node)
      requires Synced() && node in cells
      modifies `root, `cells, cells.Keys
      ensures Kept() && Synced() && cells == FixAll(old(cells), node, original)
      ensures root == FixRoot(old(cells), old(root), node)
    {
      hide AVLList.Synced;
      hide FixP;
      hide PutP;
      hide FixRoot;
      FixParent(node, original);
      FixL(node);
      FixR(node);
    }

    // ---------- rotations ----------

    /** The first half of rotateL_: n takes over what its right child has on the left, and goes below it. */
    method LowerL(n: Node, up: Node)
      requires Synced() && n in cells && up in cells && cells[n].r == up
      modifies `cells, cells.Keys`l, cells.Keys`r, cells.Keys`p
      ensures Kept() && Synced() && cells == RotLEarly(old(cells), n) && root == old(root)
    {
      hide AVLList.Synced;
      hide PutL;
      hide PutR;
      hide PutP;
      var u := L(up);
      SetR(n, u);
      AdoptP(u, n);
      SetL(up, n);
      SetP(up, P(n));
    }

    /** rotateL_ */
    method RotateL(n: Node, ghost c: Ctx, ghost t: Tree)
      requires Focused(c, t) && t.Bin? && t.n == n && t.r.Bin?
      modifies `root, `cells, cells.Keys`l, cells.Keys`r, cells.Keys`p
      ensures Kept()
      ensures Focused(c, RotL(t)) && cells.Keys == old(cells.Keys)
    {
      FocusCells(c, t, cells, root);
      RotLFocus(c, t, cells, root);
      hide Focus;
      hide AVLList.Synced;
      hide PutL;
      hide PutR;
      hide PutP;
      hide FixP;
      hide FixRoot;
      hide RotLEarly;
      var up := R(n);
      LowerL(n, up);
      FixParent(up, n);
      FixL(up);
    }

    /** The first half of rotateR_. */
    method LowerR(n: Node, up: Node)
      requires Synced() && n in cells && up in cells && cells[n].l == up
      modifies `cells, cells.Keys`l, cells.Keys`r, cells.Keys`p
      ensures Kept() && Synced() && cells == RotREarly(old(cells), n) && root == old(root)
    {
      hide AVLList.Synced;
      hide PutR;
      hide PutL;
      hide PutP;
      var u := R(up);
      SetL(n, u);
      AdoptP(u, n);
      SetR(up, n);
      SetP(up, P(n));
    }

    /** rotateR_ */
    method RotateR(n: Node, ghost c: Ctx, ghost t: Tree)
      requires Focused(c, t) && t.Bin? && t.n == n && t.l.Bin?
      modifies `root, `cells, cells.Keys`l, cells.Keys`r, cells.Keys`p
      ensures Kept()
      ensures Focused(c, RotR(t)) && cells.Keys == old(cells.Keys)
    {
      FocusCells(c, t, cells, root);
      RotRFocus(c, t, cells, root);
      hide Focus;
      hide AVLList.Synced;
      hide PutR;
      hide PutL;
      hide PutP;
      hide FixP;
      hide FixRoot;
      hide RotREarly;
      var up := L(n);
      LowerR(n, up);
      FixParent(up, n);
      FixR(up);
    }

    /** rotateRL_ */
    method RotateRL(node: Node, ghost c: Ctx, ghost t: Tree)
      requires Focused(c, t) && t.Bin? && t.n == node && t.r.Bin? && t.r.l.Bin?
      modifies `root, `cells, cells.Keys
      ensures Kept()
      ensures Focused(c, RotL(t.(r := RotR(t.r)))) && cells.Keys == old(cells.Keys)
    {
      FocusCells(c, t, cells, root);
      FocusDown(c, t, cells, root);
      hide Focus;
      hide AVLList.Synced;
      RotateR(R(node), DownR(c, t), t.r);
      ghost var t1 := t.(r := RotR(t.r));
      FocusDown(c, t1, cells, root);
      RotateL(node, c, t1);
    }

    /** rotateLR_ */
    method RotateLR(node: Node, ghost c: Ctx, ghost t: Tree)
      requires Focused(c, t) && t.Bin? && t.n == node && t.l.Bin? && t.l.r.Bin?
      modifies `root, `cells, cells.Keys
      ensures Kept()
      ensures Focused(c, RotR(t.(l := RotL(t.l)))) && cells.Keys == old(cells.Keys)
    {
      FocusCells(c, t, cells, root);
      FocusDown(c, t, cells, root);
      hide Focus;
      hide AVLList.Synced;
      RotateL(L(node), DownL(c, t), t.l);
      ghost var t1 := t.(l := RotL(t.l));
      FocusDown(c, t1, cells, root);
      RotateR(node, c, t1);
    }

    // ---------- stored balances ----------

    method SetBal(k: Node, v: int, ghost c: Ctx, ghost t: Tree)
      requires Focused(c, t) && t.Bin? && t.n == k && -2 <= v <= 2
      modifies `cells, k`balance
      ensures Kept()
      ensures Focused(c, t.(b := v)) && cells.Keys == old(cells.Keys)
    {
      FocusCells(c, t, cells, root);
      PutBFocus(c, t, cells, root, v);
      hide Focus;
      SetBalance(k, v);
    }

    method SetBalR(k: Node, v: int, ghost c: Ctx, ghost t: Tree)
      requires Focused(c, t) && t.Bin? && t.r.Bin? && t.r.n == k && -2 <= v <= 2
      modifies `cells, k`balance
      ensures Kept()
      ensures Focused(c, t.(r := t.r.(b := v))) && cells.Keys == old(cells.Keys)
    {
      FocusCells(c, t, cells, root);
      PutBFocusR(c, t, cells, root, v);
      hide Focus;
      SetBalance(k, v);
    }

    method SetBalL(k: Node, v: int, ghost c: Ctx, ghost t: Tree)
      requires Focused(c, t) && t.Bin? && t.l.Bin? && t.l.n == k && -2 <= v <= 2
      modifies `cells, k`balance
      ensures Kept()
      ensures Focused(c, t.(l := t.l.(b := v))) && cells.Keys == old(cells.Keys)
    {
      FocusCells(c, t, cells, root);
      PutBFocusL(c, t, cells, root, v);
      hide Focus;
      SetBalance(k, v);
    }

    /** Right heavy and the right child leans right. */
    method LiftSingleL(node: Node, ghost c: Ctx, ghost t: Tree)
      requires Focused(c, t) && t.Bin? && t.n == node && t.r.Bin?
      modifies `root, `cells, cells.Keys
      ensures Kept()
      ensures Focused(c, SingleL(t)) && cells.Keys == old(cells.Keys)
    {
      FocusCells(c, t, cells, root);
      hide Focus;
      hide AVLList.Synced;
      SetBal(node, 0, c, t);
      ghost var t1 := t.(b := 0);
      FocusCells(c, t1, cells, root);
      SetBalR(R(node), 0, c, t1);
      RotateL(node, c, t1.(r := t1.r.(b := 0)));
    }

    /** Left heavy and the left child leans left. */
    method LiftSingleR(node: Node, ghost c: Ctx, ghost t: Tree)
      requires Focused(c, t) && t.Bin? && t.n == node && t.l.Bin?
      modifies `root, `cells, cells.Keys
      ensures Kept()
      ensures Focused(c, SingleR(t)) && cells.Keys == old(cells.Keys)
    {
      FocusCells(c, t, cells, root);
      hide Focus;
      hide AVLList.Synced;
      SetBal(node, 0, c, t);
      ghost var t1 := t.(b := 0);
      FocusCells(c, t1, cells, root);
      SetBalL(L(node), 0, c, t1);
      RotateR(node, c, t1.(l := t1.l.(b := 0)));
    }

    /** Right heavy and the right child is even: happens only after an erase. */
    method LiftEvenL(node: Node, ghost c: Ctx, ghost t: Tree)
      requires Focused(c, t) && t.Bin? && t.n == node && t.r.Bin?
      modifies `root, `cells, cells.Keys
      ensures Kept()
      ensures Focused(c, EvenL(t)) && cells.Keys == old(cells.Keys)
    {
      FocusCells(c, t, cells, root);
      hide Focus;
      hide AVLList.Synced;
      SetBal(node, 1, c, t);
      ghost var t1 := t.(b := 1);
      FocusCells(c, t1, cells, root);
      SetBalR(R(node), -1, c, t1);
      RotateL(node, c, t1.(r := t1.r.(b := -1)));
    }

    /** Left heavy and the left child is even: happens only after an erase. */
    method LiftEvenR(node: Node, ghost c: Ctx, ghost t: Tree)
      requires Focused(c, t) && t.Bin? && t.n == node && t.l.Bin?
      modifies `root, `cells, cells.Keys
      ensures Kept()
      ensures Focused(c, EvenR(t)) && cells.Keys == old(cells.Keys)
    {
      FocusCells(c, t, cells, root);
      hide Focus;
      hide AVLList.Synced;
      SetBal(node, -1, c, t);
      ghost var t1 := t.(b := -1);
      FocusCells(c, t1, cells, root);
      SetBalL(L(node), 1, c, t1);
      RotateR(node, c, t1.(l := t1.l.(b := 1)));
    }

    /** The three balances of a double rotation set to zero. */
    method LevelRL(node: Node, ghost c: Ctx, ghost t: Tree) returns (rlBalance: int)
      requires Focused(c, t) && t.Bin? && t.n == node && t.r.Bin? && t.r.l.Bin?
      modifies `cells, cells.Keys`balance
      ensures Kept()
      ensures Focused(c, t.(b := 0, r := t.r.(b := 0, l := t.r.l.(b := 0))))
      ensures rlBalance == t.r.l.b && cells.Keys == old(cells.Keys)
    {
      FocusCells(c, t, cells, root);
      FocusDown(c, t, cells, root);
      FocusCells(DownR(c, t), t.r, cells, root);
      hide Focus;
      hide AVLList.Synced;
      var rl := L(R(node));
      rlBalance := Balance(rl);
      SetBalL(rl, 0, DownR(c, t), t.r);
      ghost var t1 := t.(r := t.r.(l := t.r.l.(b := 0)));
      FocusDown(c, t1, cells, root);
      FocusCells(c, t1, cells, root);
      SetBalR(R(node), 0, c, t1);
      ghost var t2 := t1.(r := t1.r.(b := 0));
      SetBal(node, 0, c, t2);
    }

    /** Right heavy and the right child leans left. */
    method LiftDoubleL(node: Node, ghost c: Ctx, ghost t: Tree)
      requires Focused(c, t) && t.Bin? && t.n == node && t.r.Bin? && t.r.l.Bin?
      modifies `root, `cells, cells.Keys
      ensures Kept()
      ensures Focused(c, DoubleL(t)) && cells.Keys == old(cells.Keys)
    {
      FocusCells(c, t, cells, root);
      hide Focus;
      hide AVLList.Synced;
      var rlBalance := LevelRL(node, c, t);
      ghost var t3 := t.(b := 0, r := t.r.(b := 0, l := t.r.l.(b := 0)));
      if rlBalance == 1 {
        SetBal(node, -1, c, t3);
        t3 := t3.(b := -1);
      } else if rlBalance == -1 {
        FocusCells(c, t3, cells, root);
        SetBalR(R(node), 1, c, t3);
        t3 := t3.(r := t3.r.(b := 1));
      }
      RotateRL(node, c, t3);
    }

    method LevelLR(node: Node, ghost c: Ctx, ghost t: Tree) returns (lrBalance: int)
      requires Focused(c, t) && t.Bin? && t.n == node && t.l.Bin? && t.l.r.Bin?
      modifies `cells, cells.Keys`balance
      ensures Kept()
      ensures Focused(c, t.(b := 0, l := t.l.(b := 0, r := t.l.r.(b := 0))))
      ensures lrBalance == t.l.r.b && cells.Keys == old(cells.Keys)
    {
      FocusCells(c, t, cells, root);
      FocusDown(c, t, cells, root);
      FocusCells(DownL(c, t), t.l, cells, root);
      hide Focus;
      hide AVLList.Synced;
      var lr := R(L(node));
      lrBalance := Balance(lr);
      SetBalR(lr, 0, DownL(c, t), t.l);
      ghost var t1 := t.(l := t.l.(r := t.l.r.(b := 0)));
      FocusDown(c, t1, cells, root);
      FocusCells(c, t1, cells, root);
      SetBalL(L(node), 0, c, t1);
      ghost var t2 := t1.(l := t1.l.(b := 0));
      SetBal(node, 0, c, t2);
    }

    /** Left heavy and the left child leans right. */
    method LiftDoubleR(node: Node, ghost c: Ctx, ghost t: Tree)
      requires Focused(c, t) && t.Bin? && t.n == node && t.l.Bin? && t.l.r.Bin?
      modifies `root, `cells, cells.Keys
      ensures Kept()
      ensures Focused(c, DoubleR(t)) && cells.Keys == old(cells.Keys)
    {
      FocusCells(c, t, cells, root);
      hide Focus;
      hide AVLList.Synced;
      var lrBalance := LevelLR(node, c, t);
      ghost var t3 := t.(b := 0, l := t.l.(b := 0, r := t.l.r.(b := 0)));
      if lrBalance == -1 {
        SetBal(node, 1, c, t3);
        t3 := t3.(b := 1);
      } else if lrBalance == 1 {
        FocusCells(c, t3, cells, root);
        SetBalL(L(node), -1, c, t3);
        t3 := t3.(l := t3.l.(b := -1));
      }
      RotateLR(node, c, t3);
    }

    // ---------- rebalancing ----------

    /** One lift of rebalanceAfterInsert_ or rebalanceAfterErase_: the node leans by two. */
    method Lift(node: Node, ghost c: Ctx, ghost t: Tree)
      requires Focused(c, t) && Near(t) && t.n == node && (t.b == 2 || t.b == -2)
      modifies `root, `cells, cells.Keys
      ensures Kept()
      ensures Focused(c, Lifted(t)) && cells.Keys == old(cells.Keys)
    {
      FocusCells(c, t, cells, root);
      if t.b == 2 {
        assert Avl(t.r) && Height(t.r) > 0;
      } else {
        assert Avl(t.l) && Height(t.l) > 0;
      }
      hide Focus;
      hide AVLList.Synced;
      if Balance(node) == 2 {
        var b := Balance(R(node));
        if b == 1 {
          LiftSingleL(node, c, t);
        } else if b == 0 {
          LiftEvenL(node, c, t);
        } else {
          LiftDoubleL(node, c, t);
        }
      } else {
        var b := Balance(L(node));
        if b == -1 {
          LiftSingleR(node, c, t);
        } else if b == 0 {
          LiftEvenR(node, c, t);
        } else {
          LiftDoubleR(node, c, t);
        }
      }
    }

    /** rebalanceAfterInsert_ */
    method RebalanceAfterInsert(start: Node, ghost c0: Ctx, ghost t0: Tree, ghost h0: nat) returns (ghost s: Tree)
      requires Focused(c0, t0) && t0.Bin? && t0.n == start && Grown(t0, h0) && CAvl(c0, h0)
      modifies `root, `cells, cells.Keys
      ensures Kept()
      ensures Focused(Top, s) && Avl(s) && Inorder(s) == Inorder(Plug(c0, t0)) && cells.Keys == old(cells.Keys)
    {
      hide Focus;
      hide AVLList.Synced;
      hide CAvl;
      hide Avl;
      hide Height;
      hide Inorder;
      hide Plug;
      hide Lifted;
      hide Grown;
      hide Shrunk;
      hide HeightUp;
      hide Leaned;
      hide UpTree;
      var node := start;
      ghost var c, t, h := c0, t0, h0;
      FocusCells(c, t, cells, root);
      GrownRange(t, h);
      while Balance(node) != 0
        invariant Focused(c, t) && t.Bin? && t.n == node && Grown(t, h) && CAvl(c, h)
        invariant node in cells && cells[node].b == t.b && -2 <= t.b <= 2
        invariant Inorder(Plug(c, t)) == Inorder(Plug(c0, t0)) && cells.Keys == old(cells.Keys) && Kept()
        decreases c
      {
        FocusCells(c, t, cells, root);
        if Balance(node) == 2 || Balance(node) == -2 {
          GrownDone(c, t, h);
          Lift(node, c, t);
          PlugFocus(c, Lifted(t), cells, root);
          return Plug(c, Lifted(t));
        }
        GrownUp(c, t, h);
        var parent := P(node);
        if parent == null {
          PlugFocus(c, t, cells, root);
          return Plug(c, t);
        }
        var d := if L(parent) == node then -1 else 1;
        LeanedOrder(c, t, d);
        var _ := LeanParent(parent, d, c, t);
        c, t, h := c.up, Leaned(c, t, d), HeightUp(c, h);
        node := parent;
        FocusCells(c, t, cells, root);
        GrownRange(t, h);
      }
      GrownDone(c, t, h);
      PlugFocus(c, t, cells, root);
      s := Plug(c, t);
    }

    /** rebalanceAfterErase_ */
    method RebalanceAfterErase(start: Node, ghost c0: Ctx, ghost t0: Tree, ghost h0: nat) returns (ghost s: Tree)
      requires Focused(c0, t0) && t0.Bin? && t0.n == start && Shrunk(t0, h0) && CAvl(c0, h0)
      modifies `root, `cells, cells.Keys
      ensures Kept()
      ensures Focused(Top, s) && Avl(s) && Inorder(s) == Inorder(Plug(c0, t0)) && cells.Keys == old(cells.Keys)
    {
      hide Focus;
      hide AVLList.Synced;
      hide CAvl;
      hide Avl;
      hide Height;
      hide Inorder;
      hide Plug;
      hide Lifted;
      hide Grown;
      hide Shrunk;
      hide HeightUp;
      hide Leaned;
      hide UpTree;
      var node := start;
      ghost var c, t, h := c0, t0, h0;
      while true
        invariant Focused(c, t) && t.Bin? && t.n == node && Shrunk(t, h) && CAvl(c, h)
        invariant Inorder(Plug(c, t)) == Inorder(Plug(c0, t0)) && cells.Keys == old(cells.Keys) && Kept()
        decreases c
      {
        FocusCells(c, t, cells, root);
        ShrunkRange(t, h);
        if Balance(node) == 2 || Balance(node) == -2 {
          ShrunkLift(c, t, h);
          var isEven := (if Balance(node) == 2 then Balance(R(node)) else Balance(L(node))) == 0;
          Lift(node, c, t);
          t := Lifted(t);
          if isEven {
            PlugFocus(c, t, cells, root);
            return Plug(c, t);
          }
          FocusCells(c, t, cells, root);
          node := P(node);
        }
        ShrunkUp(c, t, h);
        var parent := P(node);
        if parent == null {
          PlugFocus(c, t, cells, root);
          return Plug(c, t);
        }
        var d := if node == L(parent) then 1 else -1;
        LeanedOrder(c, t, d);
        var balance := LeanParent(parent, d, c, t);
        c, t, h := c.up, Leaned(c, t, d), HeightUp(c, h);
        if balance == d {
          PlugFocus(c, t, cells, root);
          return Plug(c, t);
        }
        node := parent;
      }
    }

    // ---------- searching ----------

    function Data(k: Node): (v: Pair)
      requires Synced() && k in cells
      reads `root, `cells, cells.Keys
      ensures v == cells[k].x
    {
      k.data
    }

    /** The loop of erase___ and getPair___. */
    method Locate(key: Key) returns (node: Node?, ghost c: Ctx, ghost t: Tree)
      requires Valid()
      ensures Focused(c, t) && shape == Plug(c, t) && node == RootOf(t)
      ensures node != null ==> key != [] && t.Bin? && t.x.key == key
      ensures node == null && key != [] ==> t == Nil && Surrounds(c, key)
      ensures node == null ==> key !in MapOf(Contents())
      ensures node != null ==> key in MapOf(Contents()) && MapOf(Contents())[key] == t.x
    {
      hide MapOf;
      hide Focus;
      hide AVLList.Synced;
      hide Less;
      hide Inorder;
      hide Avl;
      hide Plug;
      var comp := new PairLCPCompare();
      node := root;
      c, t := Top, shape;
      PlugTop(shape);
      FocusCells(c, t, cells, root);
      while node != null
        invariant Focused(c, t) && shape == Plug(c, t) && node == RootOf(t)
        invariant key != [] ==> Surrounds(c, key) && comp.Tracks(Lo(c), Hi(c), key)
        invariant fresh(comp)
        decreases t
      {
        FocusCells(c, t, cells, root);
        FocusBetween(c, t);
        Stored(c, t);
        var cmp := comp.Compare(Data(node).key, key, Lo(c), Hi(c));
        SignLess(t.x.key, key);
        FocusDown(c, t, cells, root);
        if cmp > 0 {
          node := L(node);
          StepLeft(c, t, key);
          c, t := DownL(c, t), t.l;
          continue;
        }
        if cmp < 0 {
          node := R(node);
          if key != [] {
            StepRight(c, t, key);
          } else {
            PlugDown(c, t);
          }
          c, t := DownR(c, t), t.r;
          continue;
        }
        return;
      }
      if key != [] {
        NotStored(c, key);
      }
    }

    /** getPair___ */
    method GetPair(key: Key) returns (r: Option<Pair>)
      requires Valid() && key != []
      ensures r == Lookup(MapOf(Contents()), key)
    {
      hide MapOf;
      hide Focus;
      hide AVLList.Synced;
      hide Inorder;
      hide Plug;
      var node, c, t := Locate(key);
      if node == null {
        return None;
      }
      FocusCells(c, t, cells, root);
      return Some(Data(node));
    }

    /** The loops of insertF and find: stop at the key, or where the wanted child is missing. */
    method LocateLeaf(key: Key) returns (node: Node, cmp: int, ghost c: Ctx, ghost t: Tree)
      requires Valid() && root != null && key != []
      ensures Focused(c, t) && shape == Plug(c, t) && t.Bin? && t.n == node && cmp == Sign(t.x.key, key)
      ensures cmp > 0 ==> t.l == Nil && Surrounds(DownL(c, t), key) && Plug(DownL(c, t), t.l) == shape
      ensures cmp < 0 ==> t.r == Nil && Surrounds(DownR(c, t), key) && Plug(DownR(c, t), t.r) == shape
    {
      hide MapOf;
      hide Focus;
      hide AVLList.Synced;
      hide Less;
      hide Inorder;
      hide Avl;
      hide Plug;
      var comp := new PairLCPCompare();
      node := root;
      c, t := Top, shape;
      PlugTop(shape);
      FocusCells(c, t, cells, root);
      while true
        invariant Focused(c, t) && shape == Plug(c, t) && t.Bin? && t.n == node
        invariant Surrounds(c, key) && comp.Tracks(Lo(c), Hi(c), key)
        invariant fresh(comp)
        decreases t
      {
        FocusCells(c, t, cells, root);
        FocusBetween(c, t);
        Stored(c, t);
        cmp := comp.Compare(Data(node).key, key, Lo(c), Hi(c));
        SignLess(t.x.key, key);
        FocusDown(c, t, cells, root);
        if cmp > 0 {
          StepLeft(c, t, key);
          var l := L(node);
          if l == null {
            return;
          }
          node := l;
          c, t := DownL(c, t), t.l;
          continue;
        }
        if cmp < 0 {
          StepRight(c, t, key);
          var r := R(node);
          if r == null {
            return;
          }
          node := r;
          c, t := DownR(c, t), t.r;
          continue;
        }
        return;
      }
    }

    ghost method Reshape(z: Tree)
      requires Focused(Top, z)
      modifies `shape
      ensures shape == z && Focused(Top, z) && unchanged(`root, `cells, `count, `bytes)
    {
      shape := z;
    }

    // ---------- insertF ----------

    /** allocateNode, when the allocator has memory. */
    method AllocateNode(x: Pair, parent: Node?) returns (k: Node)
      requires Synced() && (parent != null ==> parent in cells)
      modifies `cells, `count, `bytes
      ensures fresh(k) && k !in old(cells) && Synced() && cells.Keys == old(cells.Keys) + {k}
      ensures cells == old(cells)[k := Cell(null, null, parent, 0, x)] && root == old(root) && shape == old(shape)
      ensures count == old(count) + 1 && bytes == old(bytes) + x.Bytes()
    {
      k := new Node(parent, x);
      cells := cells[k := Cell(null, null, parent, 0, x)];
      count, bytes := count + 1, bytes + x.Bytes();
    }

    method SetData(k: Node, v: Pair)
      requires Synced() && k in cells
      modifies `cells, k`data
      ensures Kept()
      ensures Synced() && cells == PutX(old(cells), k, v) && root == old(root)
    {
      k.data := v;
      cells := PutX(cells, k, v);
    }

    method SetChild(k: Node, v: Node?, left: bool)
      requires Synced() && k in cells && (v != null ==> v in cells)
      modifies `cells, k`l, k`r
      ensures Kept() && Synced() && root == old(root) && cells.Keys == old(cells.Keys)
      ensures cells == if left then PutL(old(cells), k, v) else PutR(old(cells), k, v)
    {
      if left {
        SetL(k, v);
      } else {
        SetR(k, v);
      }
    }

    /** Hang a new leaf in the empty hole of d and count it in the parent's balance. */
    method HangLeaf(x: Pair, node: Node, left: bool, ghost d: Ctx) returns (ghost k: Node)
      requires Focused(d, Nil) && !d.Top? && d.n == node && d.Lt? == left && -1 <= d.b <= 1
      modifies `cells, `count, `bytes, node
      ensures Focused(d.up, Leaned(d, Leaf(k, x), if left then -1 else 1))
      ensures fresh(k) && cells.Keys == old(cells.Keys) + {k} && shape == old(shape)
      ensures count == old(count) + 1 && bytes == old(bytes) + x.Bytes()
    {
      FocusCells(d, Nil, cells, root);
      hide Focus;
      hide AVLList.Synced;
      hide UpTree;
      hide PutL;
      hide PutR;
      ghost var m := cells;
      var newnode := AllocateNode(x, node);
      k := newnode;
      HangReady(d, k, x, m, root);
      SetChild(node, newnode, left);
      SetBal(node, if left then Balance(node) - 1 else Balance(node) + 1, d.up, UpTree(d, Leaf(k, x)));
    }

    method InsertLeaf(x: Pair, node: Node, left: bool, ghost d: Ctx)
      requires Valid() && |x.key| > 0 && Focused(d, Nil) && shape == Plug(d, Nil)
      requires !d.Top? && d.n == node && d.Lt? == left && Surrounds(d, x.key)
      modifies this, cells.Keys
      ensures Valid() && fresh(cells.Keys - old(cells.Keys))
      ensures x.key !in old(MapOf(Contents()))
      ensures MapOf(Contents()) == old(MapOf(Contents()))[x.key := x]
    {
      hide MapOf;
      FocusCells(d, Nil, cells, root);
      hide Focus;
      hide AVLList.Synced;
      hide Plug;
      hide Inorder;
      hide Avl;
      hide CAvl;
      hide Grown;
      hide Leaned;
      hide HeightUp;
      ghost var s0 := Contents();
      LeafGrown(d, node, x);
      ghost var k := HangLeaf(x, node, left, d);
      LeafGrown(d, k, x);
      LeafContents(d, k, x);
      LeanedOrder(d, Leaf(k, x), if left then -1 else 1);
      ghost var z := RebalanceAfterInsert(node, d.up, Leaned(d, Leaf(k, x), if left then -1 else 1), HeightUp(d, 0));
      Reshape(z);
      assert count == |Contents()| && bytes == TotalBytes(Contents());
    }

    /** deallocate_: k leaves the tree; nothing in the tree points to it any more. */
    ghost method Release(k: Node, c: Ctx, t: Tree)
      requires Synced() && k in cells && Focus(c, t, cells - {k}, root)
      modifies `cells
      ensures Kept() && Focused(c, t) && cells == old(cells) - {k} && root == old(root)
    {
      FocusClosed(c, t, cells - {k}, root);
      hide Focus;
      cells := cells - {k};
    }

    /** Clearing the links of a node that is no longer in the tree. */
    method Clear(k: Node, ghost c: Ctx, ghost t: Tree)
      requires Focused(c, t) && k !in cells
      modifies k`l, k`r, k`p
      ensures Kept() && Focused(c, t) && cells == old(cells) && root == old(root)
    {
      hide Focus;
      k.l, k.r, k.p := null, null, null;
    }

    method PutLinks(k: Node, l: Node?, r: Node?, p: Node?, balance: int)
      requires Synced() && k in cells
      requires (l != null ==> l in cells) && (r != null ==> r in cells) && (p != null ==> p in cells)
      modifies `cells, k
      ensures Kept() && Synced() && root == old(root)
      ensures cells == old(cells)[k := Cell(l, r, p, balance, old(cells)[k].x)]
    {
      hide AVLList.Synced;
      PutAll(cells, k, l, r, p, balance);
      hide PutL;
      hide PutR;
      hide PutP;
      hide PutB;
      SetL(k, l);
      SetR(k, r);
      SetP(k, p);
      SetBalance(k, balance);
    }

    /** copyLinks_(k, n) without the final clearing. */
    method CopyLinks(k: Node, n: Node)
      requires Synced() && k in cells && n in cells && k != n
      modifies `root, `cells, cells.Keys
      ensures Kept() && Synced() && cells.Keys == old(cells.Keys)
      ensures cells - {n} == CopyCells(old(cells), k, n) && root == CopyRoot(old(cells), old(root), k, n)
    {
      hide AVLList.Synced;
      hide FixAll;
      PutLinks(k, L(n), R(n), P(n), Balance(n));
      FixParentAndChildren(k, n);
    }

    /** insertF when the tree is empty. */
    method InsertRoot(x: Pair)
      requires Valid() && root == null && |x.key| > 0
      modifies this
      ensures Valid() && fresh(cells.Keys - old(cells.Keys))
      ensures x.key !in old(MapOf(Contents()))
      ensures MapOf(Contents()) == old(MapOf(Contents()))[x.key := x]
    {
      FocusCells(Top, shape, cells, root);
      hide Focus;
      hide AVLList.Synced;
      hide Plug;
      hide Inorder;
      hide TotalBytes;
      ghost var m := cells;
      PlugTop(Nil);
      var k := AllocateNode(x, null);
      PlugTop(Leaf(k, x));
      LeafBalanced(k, x);
      LeafContents(Top, k, x);
      AttachFocus(Top, k, x, m, root);
      SetRoot(k);
      Reshape(Leaf(k, x));
    }

    /** A new node takes over the links of the old one, which is released. */
    method TakeOver(node: Node, y: Pair, ghost c: Ctx, ghost t: Tree) returns (ghost k: Node)
      requires Focused(c, t) && t.Bin? && t.n == node && -1 <= t.b <= 1
      modifies `root, `cells, `count, `bytes, cells.Keys
      ensures Focused(c, Stead(t, k, y)) && fresh(k) && cells.Keys == old(cells.Keys) + {k} - {node}
      ensures shape == old(shape) && count == old(count) + 1 && bytes == old(bytes) + y.Bytes()
    {
      FocusCells(c, t, cells, root);
      hide Focus;
      hide AVLList.Synced;
      hide Stead;
      hide CopyCells;
      hide CopyRoot;
      ghost var m, rt := cells, root;
      var newnode := AllocateNode(y, node);
      k := newnode;
      CopyFocus(c, t, k, y, m, rt);
      CopyLinks(newnode, node);
      Release(node, c, Stead(t, k, y));
      Clear(node, c, Stead(t, k, y));
    }

    /** insertF on an existing key when the old pair's memory cannot be reused. */
    method ReplaceNode(node: Node, y: Pair, ghost c: Ctx, ghost t: Tree)
      requires Valid() && Focused(c, t) && shape == Plug(c, t) && t.Bin? && t.n == node && y.key == t.x.key
      modifies this, cells.Keys
      ensures Valid() && fresh(cells.Keys - old(cells.Keys))
      ensures MapOf(Contents()) == old(MapOf(Contents()))[y.key := y]
    {
      hide MapOf;
      FocusCells(c, t, cells, root);
      FocusBalance(c, t);
      hide Focus;
      hide AVLList.Synced;
      hide Plug;
      hide Inorder;
      hide Avl;
      hide Stead;
      var olddata := Data(node);
      ghost var k := TakeOver(node, y, c, t);
      SteadContents(c, t, k, y);
      SteadAvl(c, t, k, y);
      ghost var u := Stead(t, k, y);
      PlugFocus(c, u, cells, root);
      Forget(olddata, Plug(c, u));
      assert count == |Contents()| && bytes == TotalBytes(Contents());
    }

    /** lc_.dec and the ghost tree brought up to date. */
    method Forget(x: Pair, ghost z: Tree)
      requires Focused(Top, z) && count >= 1 && bytes >= x.Bytes()
      modifies `count, `bytes, `shape
      ensures Focused(Top, z) && shape == z && count == old(count) - 1 && bytes == old(bytes) - x.Bytes()
      ensures unchanged(`root, `cells)
    {
      count, bytes := count - 1, bytes - x.Bytes();
      shape := z;
    }

    /** lc_.upd and the ghost tree brought up to date. */
    method Recount(x: Pair, y: Pair, ghost z: Tree)
      requires Focused(Top, z) && bytes >= x.Bytes()
      modifies `bytes, `shape
      ensures Focused(Top, z) && shape == z && count == old(count) && bytes == old(bytes) - x.Bytes() + y.Bytes()
      ensures unchanged(`root, `cells)
    {
      bytes := bytes - x.Bytes() + y.Bytes();
      shape := z;
    }

    /** insertF on an existing key whose pair is rewritten in its own memory. */
    method UpdateInPlace(node: Node, y: Pair, ghost c: Ctx, ghost t: Tree)
      requires Valid() && Focused(c, t) && shape == Plug(c, t) && t.Bin? && t.n == node && y.key == t.x.key
      modifies this, node
      ensures Valid() && cells.Keys == old(cells.Keys)
      ensures MapOf(Contents()) == old(MapOf(Contents()))[y.key := y]
    {
      hide MapOf;
      FocusCells(c, t, cells, root);
      SteadContents(c, t, t.n, y);
      SteadAvl(c, t, t.n, y);
      PutXFocus(c, t, cells, root, y);
      ghost var u := Stead(t, t.n, y);
      assert u == t.(x := y);
      hide Focus;
      hide AVLList.Synced;
      hide Plug;
      hide Inorder;
      hide Avl;
      hide Stead;
      var olddata := Data(node);
      SetData(node, y);
      PlugFocus(c, u, cells, root);
      Recount(olddata, y, Plug(c, u));
      assert count == |Contents()| && bytes == TotalBytes(Contents());
    }

    method InsertExisting(f: Factory, env: Env, node: Node, ghost c: Ctx, ghost t: Tree) returns (st: Status)
      requires Valid() && f.IsValid() && Focused(c, t) && shape == Plug(c, t) && t.Bin? && t.n == node && f.key == t.x.key
      modifies this, cells.Keys
      ensures Valid() && fresh(cells.Keys - old(cells.Keys))
      ensures (st, MapOf(Contents())) == Insert(old(MapOf(Contents())), f, env)
    {
      hide MapOf;
      FocusCells(c, t, cells, root);
      Stored(c, t);
      hide Focus;
      hide AVLList.Synced;
      hide Plug;
      hide Inorder;
      hide Avl;
      hide Less;
      var olddata := Data(node);
      if f.SimulatedStamp() < olddata.created {
        return SkipInserted;
      }
      if env.owns && olddata.Bytes() >= f.Bytes() {
        UpdateInPlace(node, f.CreateHint(olddata, env.now), c, t);
        return UpdatedInPlace;
      }
      if !env.memory {
        return ErrorNoMemory;
      }
      ReplaceNode(node, f.Create(env.now), c, t);
      return Replaced;
    }

    /** insertF: the map is updated exactly as the specification says; when the
        allocator has no memory nothing changes. */
    method InsertF(f: Factory, env: Env) returns (st: Status)
      requires Valid()
      modifies this, cells.Keys
      ensures Valid() && fresh(cells.Keys - old(cells.Keys))
      ensures (st, MapOf(Contents())) == Insert(old(MapOf(Contents())), f, env)
    {
      hide MapOf;
      hide Focus;
      hide AVLList.Synced;
      hide Plug;
      hide Inorder;
      hide Avl;
      hide Less;
      InsertInvalid(MapOf(Contents()), f, env);
      if !f.IsValid() {
        return ErrorInvalid;
      }
      hide Insert;
      if root == null {
        st := InsertFirst(f, env);
        return;
      }
      var node, cmp, c, t := LocateLeaf(f.key);
      FocusCells(c, t, cells, root);
      FocusDown(c, t, cells, root);
      SignLess(t.x.key, f.key);
      if cmp > 0 {
        st := InsertBelow(f, env, node, true, DownL(c, t));
        return;
      }
      if cmp < 0 {
        st := InsertBelow(f, env, node, false, DownR(c, t));
        return;
      }
      st := InsertExisting(f, env, node, c, t);
    }

    method InsertFirst(f: Factory, env: Env) returns (st: Status)
      requires Valid() && root == null && f.IsValid()
      modifies this
      ensures Valid() && fresh(cells.Keys - old(cells.Keys))
      ensures (st, MapOf(Contents())) == Insert(old(MapOf(Contents())), f, env)
    {
      hide Focus;
      hide AVLList.Synced;
      hide Inorder;
      hide Avl;
      EmptyMap();
      if !env.memory {
        return ErrorNoMemory;
      }
      InsertRoot(f.Create(env.now));
      return Inserted;
    }

    /** A key that is not stored goes into the hole of d. */
    method InsertBelow(f: Factory, env: Env, node: Node, left: bool, ghost d: Ctx) returns (st: Status)
      requires Valid() && f.IsValid() && Focused(d, Nil) && shape == Plug(d, Nil)
      requires !d.Top? && d.n == node && d.Lt? == left && Surrounds(d, f.key)
      modifies this, cells.Keys
      ensures Valid() && fresh(cells.Keys - old(cells.Keys))
      ensures (st, MapOf(Contents())) == Insert(old(MapOf(Contents())), f, env)
    {
      hide MapOf;
      hide Focus;
      hide AVLList.Synced;
      hide Plug;
      hide Inorder;
      hide Avl;
      hide Less;
      NotStored(d, f.key);
      if !env.memory {
        return ErrorNoMemory;
      }
      InsertLeaf(f.Create(env.now), node, left, d);
      return Inserted;
    }

    lemma EmptyMap()
      requires Valid() && root == null
      ensures Contents() == [] && MapOf(Contents()) == map[]
    {
      FocusCells(Top, shape, cells, root);
    }

    // ---------- erase___ ----------

    /** getMinValueNode */
    method MinNode(start: Node, ghost c0: Ctx, ghost t0: Tree) returns (node: Node, ghost c: Ctx, ghost t: Tree)
      requires Focused(c0, t0) && t0.Bin? && t0.n == start
      ensures Focused(c, t) && t.Bin? && t.n == node && t.l.Nil?
      ensures OnlyLeft(c, c0) && Plug(c, t) == Plug(c0, t0)
    {
      hide Focus;
      hide AVLList.Synced;
      hide Plug;
      node := start;
      c, t := c0, t0;
      FocusCells(c, t, cells, root);
      while L(node) != null
        invariant Focused(c, t) && t.Bin? && t.n == node && node in cells && cells[node].l == RootOf(t.l)
        invariant OnlyLeft(c, c0) && Plug(c, t) == Plug(c0, t0)
        decreases t
      {
        node := L(node);
        FocusDown(c, t, cells, root);
        PlugDown(c, t);
        c, t := DownL(c, t), t.l;
        FocusCells(c, t, cells, root);
      }
    }

    /** The field exchange that both forms of swapLinks_ begin with. */
    method ExchangeFields(a: Node, b: Node)
      requires Synced() && a in cells && b in cells && a != b
      modifies `cells, a, b
      ensures Kept() && Synced() && cells == ExchangeCells(old(cells), a, b) && root == old(root)
    {
      hide AVLList.Synced;
      var l, r, p, balance := L(a), R(a), P(a), Balance(a);
      PutLinks(a, L(b), R(b), P(b), Balance(b));
      PutLinks(b, l, r, p, balance);
    }

    /** swapLinksNormal_ */
    method SwapLinksNormal(a: Node, b: Node)
      requires Synced() && a in cells && b in cells && a != b
      modifies `root, `cells, cells.Keys
      ensures Kept() && Synced()
      ensures cells == SwapNormalCells(old(cells), a, b) && root == SwapNormalRoot(old(cells), old(root), a, b)
    {
      hide AVLList.Synced;
      hide ExchangeCells;
      hide FixAll;
      hide FixRoot;
      ExchangeFields(a, b);
      FixParentAndChildren(a, b);
      FixParentAndChildren(b, a);
    }

    /** swapLinksRelative_: a is the parent of b. */
    method SwapLinksRelative(a: Node, b: Node)
      requires Synced() && a in cells && b in cells && a != b
      modifies `root, `cells, cells.Keys
      ensures Kept() && Synced()
      ensures cells == SwapRelativeCells(old(cells), a, b) && root == SwapRelativeRoot(old(cells), old(root), a, b)
    {
      hide AVLList.Synced;
      hide ExchangeCells;
      hide FixP;
      hide FixRoot;
      hide PutL;
      hide PutR;
      hide PutP;
      ExchangeFields(a, b);
      FixParent(b, a);
      FixL(a);
      FixR(a);
      SetP(a, b);
      if L(b) == b {
        SetL(b, a);
        FixR(b);
      } else {
        FixL(b);
        SetR(b, a);
      }
    }

    /** swapLinks_: two nodes of the tree exchange places. */
    method SwapLinks(a: Node, b: Node)
      requires Synced() && Consistent(cells, root) && a in cells && b in cells && a != b
      requires !(cells[a].p == b && cells[b].p == a)
      requires !Crossed(cells, a, b)
      modifies `root, `cells, cells.Keys
      ensures Kept() && Synced()
      ensures cells == Swapped(old(cells), a, b) && root == Ren(old(root), a, b)
    {
      hide AVLList.Synced;
      hide SwapNormalCells;
      hide SwapRelativeCells;
      hide SwapNormalRoot;
      hide SwapRelativeRoot;
      hide Swapped;
      hide Consistent;
      if P(b) == a {
        SwapRelativeIs(cells, root, a, b);
        SwapLinksRelative(a, b);
      } else if P(a) == b {
        SwapRelativeIs(cells, root, b, a);
        SwappedSymmetric(cells, a, b);
        SwapLinksRelative(b, a);
      } else {
        SwapNormalExact(cells, root, a, b);
        SwapLinksNormal(a, b);
      }
    }

    /** A node with at most one child is cut out of the tree and released. */
    method CutOut(node: Node, ghost c: Ctx, ghost t: Tree)
      requires Focused(c, t) && t.Bin? && t.n == node && (t.l.Nil? || t.r.Nil?)
      modifies `root, `cells, cells.Keys
      ensures Kept() && Focused(c, OnlyChild(t)) && cells.Keys == old(cells.Keys) - {node}
    {
      FocusCells(c, t, cells, root);
      CutFocus(c, t, cells, root);
      hide Focus;
      hide AVLList.Synced;
      hide PutP;
      var child := if L(node) != null then L(node) else R(node);
      var parent := P(node);
      AdoptP(child, parent);
      if parent == null {
        SetRoot(child);
      } else {
        SetChild(parent, child, L(parent) == node);
      }
      Release(node, c, OnlyChild(t));
    }

    method SetRoot(v: Node?)
      requires Synced() && (v != null ==> v in cells)
      modifies `root
      ensures Kept() && Synced() && root == v && cells == old(cells)
    {
      root := v;
    }

    /** incBalance or decBalance of the parent of the focus. */
    method LeanParent(parent: Node, d: int, ghost c: Ctx, ghost t: Tree) returns (balance: int)
      requires Focused(c, t) && !c.Top? && c.n == parent && -1 <= c.b <= 1 && -1 <= d <= 1
      modifies `cells, parent`balance
      ensures Kept() && Focused(c.up, Leaned(c, t, d)) && cells.Keys == old(cells.Keys) && balance == c.b + d
    {
      FocusCells(c, t, cells, root);
      FocusUp(c, t, cells, root);
      LeanedOrder(c, t, d);
      hide Focus;
      hide AVLList.Synced;
      hide Leaned;
      hide UpTree;
      hide Plug;
      hide Inorder;
      balance := Balance(parent) + d;
      SetBal(parent, balance, UpCtx(c), UpTree(c, t));
    }

    /** Cases 1 and 2 of erase___: cut out, lean the parent, rebalance if needed. */
    method Unlink(node: Node, ghost c: Ctx, ghost t: Tree) returns (ghost s: Tree)
      requires Focused(c, t) && t.Bin? && t.n == node && (t.l.Nil? || t.r.Nil?) && Avl(Plug(c, t))
      modifies `root, `cells, cells.Keys
      ensures Kept() && Focused(Top, s) && Avl(s) && Inorder(s) == Inorder(Plug(c, OnlyChild(t)))
      ensures cells.Keys == old(cells.Keys) - {node}
    {
      hide Focus;
      hide AVLList.Synced;
      hide CAvl;
      hide Avl;
      hide Height;
      hide Inorder;
      hide Plug;
      hide Shrunk;
      hide HeightUp;
      hide Leaned;
      hide UpTree;
      hide OnlyChild;
      hide CutCells;
      FocusCells(c, t, cells, root);
      CutHeight(c, t);
      ghost var ch := OnlyChild(t);
      var parent := P(node);
      var isLeft := parent != null && node == L(parent);
      CutOut(node, c, t);
      ShrunkUp(c, ch, Height(t));
      if parent == null {
        PlugFocus(c, ch, cells, root);
        return Plug(c, ch);
      }
      var d := if isLeft then 1 else -1;
      LeanedOrder(c, ch, d);
      var balance := LeanParent(parent, d, c, ch);
      ghost var u := Leaned(c, ch, d);
      if balance == d {
        PlugFocus(c.up, u, cells, root);
        return Plug(c.up, u);
      }
      s := RebalanceAfterErase(parent, c.up, u, HeightUp(c, Height(t)));
    }

    /** A node and its successor, found below c2, exchange places. */
    method SwapPlaces(node: Node, successor: Node, ghost c: Ctx, ghost t: Tree, ghost c2: Ctx, ghost u: Tree)
      returns (ghost c': Ctx, ghost t': Tree)
      requires Focused(c, t) && Focused(c2, u) && t.Bin? && t.n == node && u.Bin? && u.n == successor && u.l.Nil?
      requires Plug(c, t) == Plug(c2, u) && OnlyLeft(c2, DownR(c, t)) && Avl(Plug(c, t))
      requires Sorted(Inorder(Plug(c, t))) && KeysValid(Inorder(Plug(c, t)))
      modifies `root, `cells, cells.Keys
      ensures Kept() && Focused(c', t') && cells.Keys == old(cells.Keys)
      ensures t'.Bin? && t'.n == node && t'.x == t.x && t'.l.Nil? && Avl(Plug(c', t'))
      ensures Without(Inorder(Plug(c, t)), t.x, Inorder(Plug(c', OnlyChild(t'))))
    {
      hide Focus;
      hide AVLList.Synced;
      hide Plug;
      hide Inorder;
      hide Avl;
      hide SwapC;
      hide SwapT;
      hide Swapped;
      hide Consistent;
      hide Without;
      hide Crossed;
      hide OnlyLeft;
      hide Sorted;
      hide KeysValid;
      SwapReady(c, t, c2, u, cells, root);
      c', t' := SwapC(c2, t.n, u.n, t.x, u.x), SwapT(u, t.n, u.n, t.x, u.x);
      SwapLinks(node, successor);
    }

    /** Case 3 of erase___: a node with two children exchanges places with its successor. */
    method SwapWithSuccessor(node: Node, ghost c: Ctx, ghost t: Tree) returns (ghost c': Ctx, ghost t': Tree)
      requires Focused(c, t) && t.Bin? && t.n == node && t.r.Bin? && Avl(Plug(c, t))
      requires Sorted(Inorder(Plug(c, t))) && KeysValid(Inorder(Plug(c, t)))
      modifies `root, `cells, cells.Keys
      ensures Kept() && Focused(c', t') && cells.Keys == old(cells.Keys)
      ensures t'.Bin? && t'.n == node && t'.x == t.x && t'.l.Nil? && Avl(Plug(c', t'))
      ensures Without(Inorder(Plug(c, t)), t.x, Inorder(Plug(c', OnlyChild(t'))))
    {
      hide Focus;
      hide AVLList.Synced;
      hide Plug;
      hide Inorder;
      hide Avl;
      hide Without;
      hide OnlyLeft;
      hide Sorted;
      hide KeysValid;
      FocusCells(c, t, cells, root);
      FocusDown(c, t, cells, root);
      PlugDown(c, t);
      var successor, c2, u := MinNode(R(node), DownR(c, t), t.r);
      c', t' := SwapPlaces(node, successor, c, t, c2, u);
    }

    /** erase___: removes exactly the given key. */
    method Erase(key: Key) returns (st: Status)
      requires Valid()
      modifies this, cells.Keys
      ensures Valid() && cells.Keys <= old(cells.Keys)
      ensures (st, MapOf(Contents())) == Pairs.Erase(old(MapOf(Contents())), key)
    {
      hide Focus;
      hide AVLList.Synced;
      hide Plug;
      hide Inorder;
      hide Avl;
      hide Less;
      var node, c, t := Locate(key);
      if node == null {
        return SkipDeleted;
      }
      FocusCells(c, t, cells, root);
      var x := Data(node);
      ghost var c', t' := c, t;
      if L(node) != null && R(node) != null {
        c', t' := SwapWithSuccessor(node, c, t);
      } else {
        CutInPlace(c, t);
      }
      ghost var z := Unlink(node, c', t');
      Forget(x, z);
      assert count == |Contents()| && bytes == TotalBytes(Contents());
      return Deleted;
    }
  }
}
