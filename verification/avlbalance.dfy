/** Why the rebalancing loops of the AVL memtable work: what each rotation does to
    heights, and what one step up the tree needs and keeps. */
module AvlBalance {
  import opened Pairs
  import opened AvlTree

  /** Both subtrees are fine; the node itself may lean by two. */
  predicate Near(t: Tree) {
    t.Bin? && Avl(t.l) && Avl(t.r) && t.b == Height(t.r) - Height(t.l) && -2 <= t.b <= 2
  }

  // ---------- the rebalancing rotations ----------

  /** Right heavy, right child leaning right. */
  function SingleL(t: Tree): Tree
    requires t.Bin? && t.r.Bin?
  {
    RotL(t.(b := 0, r := t.r.(b := 0)))
  }

  /** Right heavy, right child even: only after an erase. */
  function EvenL(t: Tree): Tree
    requires t.Bin? && t.r.Bin?
  {
    RotL(t.(b := 1, r := t.r.(b := -1)))
  }

  /** Right heavy, right child leaning left. */
  function DoubleL(t: Tree): Tree
    requires t.Bin? && t.r.Bin? && t.r.l.Bin?
  {
    var rl := t.r.l.b;
    RotL(t.(b := if rl == 1 then -1 else 0,
            r := RotR(t.r.(b := if rl == -1 then 1 else 0, l := t.r.l.(b := 0)))))
  }

  function SingleR(t: Tree): Tree
    requires t.Bin? && t.l.Bin?
  {
    RotR(t.(b := 0, l := t.l.(b := 0)))
  }

  function EvenR(t: Tree): Tree
    requires t.Bin? && t.l.Bin?
  {
    RotR(t.(b := -1, l := t.l.(b := 1)))
  }

  function DoubleR(t: Tree): Tree
    requires t.Bin? && t.l.Bin? && t.l.r.Bin?
  {
    var lr := t.l.r.b;
    RotR(t.(b := if lr == -1 then 1 else 0,
            l := RotL(t.l.(b := if lr == 1 then -1 else 0, r := t.l.r.(b := 0)))))
  }

  /** The subtree that replaces t when t leans by two. */
  function Lifted(t: Tree): Tree
    requires Near(t) && (t.b == 2 || t.b == -2)
  {
    if t.b == 2 then
      if t.r.b == 1 then SingleL(t) else if t.r.b == 0 then EvenL(t) else DoubleL(t)
    else
      if t.l.b == -1 then SingleR(t) else if t.l.b == 0 then EvenR(t) else DoubleR(t)
  }

  /** A lift repairs the balance, keeps the order, and lowers the subtree by one
      exactly when the tall child was leaning. */
  lemma LiftedGood(t: Tree)
    requires Near(t) && (t.b == 2 || t.b == -2)
    ensures Avl(Lifted(t)) && Inorder(Lifted(t)) == Inorder(t)
    ensures Height(Lifted(t)) ==
      if (t.b == 2 && t.r.b == 0) || (t.b == -2 && t.l.b == 0) then Height(t) else Height(t) - 1
  {
    LiftedOrder(t);
    hide Inorder;
    if t.b == 2 {
      RightLiftGood(t);
    } else {
      LeftLiftGood(t);
    }
  }

  lemma RightLiftGood(t: Tree)
    requires Near(t) && t.b == 2
    ensures t.r.Bin? && -1 <= t.r.b <= 1
    ensures t.r.b == 1 ==> Avl(SingleL(t)) && Height(SingleL(t)) == Height(t) - 1
    ensures t.r.b == 0 ==> Avl(EvenL(t)) && Height(EvenL(t)) == Height(t)
    ensures t.r.b == -1 ==> t.r.l.Bin? && Avl(DoubleL(t)) && Height(DoubleL(t)) == Height(t) - 1
  {
    var r := t.r;
    assert Avl(r.l) && Avl(r.r);
    if r.b == -1 {
      var c := r.l;
      assert Avl(c.l) && Avl(c.r);
      var nb, rb := if c.b == 1 then -1 else 0, if c.b == -1 then 1 else 0;
      var u, v := Bin(t.l, t.n, t.x, nb, c.l), Bin(c.r, r.n, r.x, rb, r.r);
      assert DoubleL(t) == Bin(u, c.n, c.x, 0, v);
      assert Avl(u) && Avl(v) && Height(u) == Height(v);
    } else {
      var u := Bin(t.l, t.n, t.x, if r.b == 1 then 0 else 1, r.l);
      assert Avl(u);
    }
  }

  lemma LeftLiftGood(t: Tree)
    requires Near(t) && t.b == -2
    ensures t.l.Bin? && -1 <= t.l.b <= 1
    ensures t.l.b == -1 ==> Avl(SingleR(t)) && Height(SingleR(t)) == Height(t) - 1
    ensures t.l.b == 0 ==> Avl(EvenR(t)) && Height(EvenR(t)) == Height(t)
    ensures t.l.b == 1 ==> t.l.r.Bin? && Avl(DoubleR(t)) && Height(DoubleR(t)) == Height(t) - 1
  {
    var l := t.l;
    assert Avl(l.l) && Avl(l.r);
    if l.b == 1 {
      var c := l.r;
      assert Avl(c.l) && Avl(c.r);
      var nb, lb := if c.b == -1 then 1 else 0, if c.b == 1 then -1 else 0;
      var u, v := Bin(c.r, t.n, t.x, nb, t.r), Bin(l.l, l.n, l.x, lb, c.l);
      assert DoubleR(t) == Bin(v, c.n, c.x, 0, u);
      assert Avl(u) && Avl(v) && Height(u) == Height(v);
    } else {
      var u := Bin(l.r, t.n, t.x, if l.b == -1 then 0 else -1, t.r);
      assert Avl(u);
    }
  }

  /** After a lift the old root hangs directly below the new one. */
  lemma LiftedRoot(t: Tree)
    requires Near(t) && (t.b == 2 || t.b == -2)
    ensures var u := Lifted(t); u.Bin? && if t.b == 2 then u.l.Bin? && u.l.n == t.n else u.r.Bin? && u.r.n == t.n
  {
  }

  lemma LiftedOrder(t: Tree)
    requires Near(t) && (t.b == 2 || t.b == -2)
    ensures Inorder(Lifted(t)) == Inorder(t)
  {
    if t.b == 2 {
      RightLiftOrder(t);
    } else {
      LeftLiftOrder(t);
    }
  }

  lemma RightLiftOrder(t: Tree)
    requires t.Bin? && t.r.Bin?
    ensures Inorder(SingleL(t)) == Inorder(EvenL(t)) == Inorder(t)
    ensures t.r.l.Bin? ==> Inorder(DoubleL(t)) == Inorder(t)
  {
    RotationsKeepOrder(t.(b := 0, r := t.r.(b := 0)));
    RotationsKeepOrder(t.(b := 1, r := t.r.(b := -1)));
    if t.r.l.Bin? {
      var rl := t.r.l.b;
      var r1 := t.r.(b := if rl == -1 then 1 else 0, l := t.r.l.(b := 0));
      assert Inorder(t.r.l.(b := 0)) == Inorder(t.r.l);
      RotationsKeepOrder(r1);
      RotationsKeepOrder(t.(b := if rl == 1 then -1 else 0, r := RotR(r1)));
    }
  }

  lemma LeftLiftOrder(t: Tree)
    requires t.Bin? && t.l.Bin?
    ensures Inorder(SingleR(t)) == Inorder(EvenR(t)) == Inorder(t)
    ensures t.l.r.Bin? ==> Inorder(DoubleR(t)) == Inorder(t)
  {
    RotationsKeepOrder(t.(b := 0, l := t.l.(b := 0)));
    RotationsKeepOrder(t.(b := -1, l := t.l.(b := 1)));
    if t.l.r.Bin? {
      var lr := t.l.r.b;
      var l1 := t.l.(b := if lr == 1 then -1 else 0, r := t.l.r.(b := 0));
      assert Inorder(t.l.r.(b := 0)) == Inorder(t.l.r);
      RotationsKeepOrder(l1);
      RotationsKeepOrder(t.(b := if lr == -1 then 1 else 0, l := RotL(l1)));
    }
  }

  // ---------- one step up after an insert ----------

  /** Where the insert loop stands: the hole above was balanced for height h. */
  predicate Grown(t: Tree, h: nat) {
    && Near(t)
    && (t.b == 0 ==> Height(t) == h)
    && (t.b != 0 ==> Height(t) == h + 1)
    && (t.b == 2 ==> t.r.b != 0)
    && (t.b == -2 ==> t.l.b != 0)
  }

  /** The parent of the focus with its stored balance changed by d. */
  function Leaned(c: Ctx, t: Tree, d: int): Tree
    requires !c.Top?
  {
    var u := UpTree(c, t);
    u.(b := u.b + d)
  }

  function HeightUp(c: Ctx, h: nat): nat
    requires !c.Top?
  {
    match c
    case Lt(_, _, _, _, r) => 1 + Max(h, Height(r))
    case Rt(_, l, _, _, _) => 1 + Max(Height(l), h)
  }

  /** Stored balances do not show in the order of the pairs. */
  lemma LeanedOrder(c: Ctx, t: Tree, d: int)
    requires !c.Top?
    ensures Inorder(Plug(c.up, Leaned(c, t, d))) == Inorder(Plug(c, t))
    ensures var u := UpTree(c, t);
      u.Bin? && u.n == c.n && u.b == c.b && Leaned(c, t, d) == u.(b := c.b + d)
  {
    PlugInorder(c.up, Leaned(c, t, d));
    PlugInorder(c.up, UpTree(c, t));
  }

  lemma LiftedPlug(c: Ctx, t: Tree)
    requires Near(t) && (t.b == 2 || t.b == -2)
    ensures Inorder(Plug(c, Lifted(t))) == Inorder(Plug(c, t))
  {
    LiftedOrder(t);
    PlugInorder(c, t);
    PlugInorder(c, Lifted(t));
  }

  /** The insert loop stops at an even node, at the root, or after one lift. */
  lemma GrownDone(c: Ctx, t: Tree, h: nat)
    requires CAvl(c, h) && Grown(t, h) && t.b != 1 && t.b != -1
    ensures t.b == 0 ==> Avl(Plug(c, t))
    ensures t.b == 2 || t.b == -2 ==>
      Near(t) && Avl(Plug(c, Lifted(t))) && Inorder(Plug(c, Lifted(t))) == Inorder(Plug(c, t))
  {
    hide Plug;
    hide CAvl;
    hide Inorder;
    hide Lifted;
    GrownIs(t, h);
    hide Grown;
    hide Avl;
    hide Near;
    hide Height;
    PlugAvl(c, t);
    if t.b != 0 {
      LiftedPlug(c, t);
      PlugAvl(c, Lifted(t));
    }
  }

  /** An even subtree is balanced, and a lift gives back the height it had. */
  lemma GrownIs(t: Tree, h: nat)
    requires Grown(t, h) && t.b != 1 && t.b != -1
    ensures Near(t) && (t.b == 0 || t.b == 2 || t.b == -2)
    ensures t.b == 0 ==> Avl(t) && Height(t) == h
    ensures t.b != 0 ==> Avl(Lifted(t)) && Height(Lifted(t)) == h
  {
    if t.b != 0 {
      LiftedGood(t);
      hide Lifted;
    }
  }

  /** A new leaf below an empty hole. */
  lemma LeafGrown(c: Ctx, k: Node, x: Pair)
    requires !c.Top? && Avl(Plug(c, Nil))
    ensures -1 <= c.b <= 1 && CAvl(c.up, HeightUp(c, 0))
    ensures Grown(Leaned(c, Bin(Nil, k, x, 0, Nil), if c.Lt? then -1 else 1), HeightUp(c, 0))
  {
    PlugAvl(c, Nil);
    assert Height(Nil) == 0;
  }

  lemma GrownRange(t: Tree, h: nat)
    requires Grown(t, h)
    ensures t.Bin? && -2 <= t.b <= 2
  {
  }

  lemma GrownUp(c: Ctx, t: Tree, h: nat)
    requires CAvl(c, h) && Grown(t, h) && (t.b == 1 || t.b == -1)
    ensures c.Top? ==> Avl(Plug(c, t))
    ensures !c.Top? ==>
      && -1 <= c.b <= 1
      && CAvl(c.up, HeightUp(c, h))
      && Grown(Leaned(c, t, if c.Lt? then -1 else 1), HeightUp(c, h))
  {
  }

  // ---------- one step up after an erase ----------

  /** Where the erase loop stands: level again and one lower than h, or leaning by two. */
  predicate Shrunk(t: Tree, h: nat) {
    && Near(t)
    && (t.b == 0 || t.b == 2 || t.b == -2)
    && h == if t.b == 0 then Height(t) + 1 else Height(t)
  }

  lemma ShrunkRange(t: Tree, h: nat)
    requires Shrunk(t, h)
    ensures t.Bin? && (t.b == 0 || t.b == 2 || t.b == -2)
    ensures t.b == 0 ==> Avl(t) && h == Height(t) + 1
  {
  }

  /** A lean by two after an erase: the lift leaves the height (and the loop stops)
      exactly when the tall child was even. */
  lemma ShrunkLift(c: Ctx, t: Tree, h: nat)
    requires CAvl(c, h) && Shrunk(t, h) && t.b != 0
    ensures Near(t) && (t.b == 2 ==> t.r.Bin?) && (t.b == -2 ==> t.l.Bin?)
    ensures Inorder(Plug(c, Lifted(t))) == Inorder(Plug(c, t))
    ensures var u := Lifted(t);
      && u.Bin? && Avl(u)
      && (if t.b == 2 then u.l.Bin? && u.l.n == t.n else u.r.Bin? && u.r.n == t.n)
      && if (if t.b == 2 then t.r.b else t.l.b) == 0 then Avl(Plug(c, u)) else h == Height(u) + 1
  {
    LiftedGood(t);
    LiftedPlug(c, t);
    LiftedRoot(t);
    PlugAvl(c, Lifted(t));
  }

  /** The height of the focus dropped from h to h - 1. */
  lemma ShrunkUp(c: Ctx, t: Tree, h: nat)
    requires CAvl(c, h) && Avl(t) && h == Height(t) + 1
    ensures c.Top? ==> Avl(Plug(c, t))
    ensures !c.Top? ==>
      var u := Leaned(c, t, if c.Lt? then 1 else -1);
      && -1 <= c.b <= 1
      && CAvl(c.up, HeightUp(c, h))
      && (u.b == (if c.Lt? then 1 else -1) ==> Avl(Plug(c.up, u)))
      && (u.b != (if c.Lt? then 1 else -1) ==> Shrunk(u, HeightUp(c, h)))
  {
    if !c.Top? {
      PlugAvl(c.up, Leaned(c, t, if c.Lt? then 1 else -1));
    }
  }
}
