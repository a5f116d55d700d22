/** Searching the AVL memtable: what is known about the keys on either side of the
    path from the root, and how the path moves through the sorted sequence. */
module AvlSearch {
  import opened Keys
  import opened Pairs
  import opened AvlTree
  import opened LcpCompare

  /** The nearest key passed on the way down, on the left and on the right. */
  function Lo(c: Ctx): Bound {
    match c
    case Top => Open
    case Lt(up, _, _, _, _) => Lo(up)
    case Rt(_, _, _, x, _) => Bound.At(x.key)
  }

  function Hi(c: Ctx): Bound {
    match c
    case Top => Open
    case Lt(_, _, x, _, _) => Bound.At(x.key)
    case Rt(up, _, _, _, _) => Hi(up)
  }

  lemma {:induction false} BoundsAreNeighbours(c: Ctx)
    ensures Lo(c).At? ==> |Before(c)| > 0 && Before(c)[|Before(c)| - 1].key == Lo(c).key
    ensures Hi(c).At? ==> |After(c)| > 0 && After(c)[0].key == Hi(c).key
    ensures Lo(c).Open? ==> Before(c) == []
    ensures Hi(c).Open? ==> After(c) == []
  {
    match c
    case Top =>
    case Lt(up, _, _, _, _) => BoundsAreNeighbours(up);
    case Rt(up, _, _, _, _) => BoundsAreNeighbours(up);
  }

  /** Everything in the focus lies strictly between the bounds. */
  lemma FocusBetween(c: Ctx, t: Tree)
    requires Sorted(Inorder(Plug(c, t))) && t.Bin?
    ensures Between(Lo(c), t.x.key, Hi(c))
  {
    hide Less;
    hide Plug;
    BoundsAreNeighbours(c);
    PlugInorder(c, t);
    var i := |Inorder(t.l)|;
    assert i < |Inorder(t)| && Inorder(t)[i] == t.x;
    hide Inorder;
    SortedThree(Before(c), Inorder(t), After(c), i);
  }

  lemma SortedThree(a: seq<Pair>, b: seq<Pair>, c: seq<Pair>, i: nat)
    requires Sorted(a + b + c) && i < |b|
    ensures |a| > 0 ==> Less(a[|a| - 1].key, b[i].key)
    ensures |c| > 0 ==> Less(b[i].key, c[0].key)
  {
    hide Less;
    var s := a + b + c;
    assert s[|a| + i] == b[i];
    assert |a| > 0 ==> s[|a| - 1] == a[|a| - 1];
    assert |c| > 0 ==> s[|a| + |b|] == c[0];
  }

  /** Everything outside the focus is on the right side of key. */
  predicate Surrounds(c: Ctx, key: Key) {
    Fits(Before(c), key, After(c))
  }

  lemma StepLeft(c: Ctx, t: Tree, key: Key)
    requires Sorted(Inorder(Plug(c, t))) && t.Bin? && Surrounds(c, key) && Less(key, t.x.key)
    ensures Surrounds(DownL(c, t), key)
    ensures Plug(DownL(c, t), t.l) == Plug(c, t)
    ensures Lo(DownL(c, t)) == Lo(c) && Hi(DownL(c, t)) == Bound.At(t.x.key)
  {
    PlugInorder(c, t);
    hide Less;
    var s := Inorder(Plug(c, t));
    var i := |Before(c)| + |Inorder(t.l)|;
    var a := [t.x] + Inorder(t.r) + After(c);
    forall j | 0 <= j < |a| ensures Less(key, a[j].key) {
      assert a[j] == s[i + j] && s[i] == t.x;
      if j > 0 {
        LessTransitive(key, t.x.key, a[j].key);
      }
    }
  }

  lemma StepRight(c: Ctx, t: Tree, key: Key)
    requires Sorted(Inorder(Plug(c, t))) && t.Bin? && Surrounds(c, key) && Less(t.x.key, key)
    ensures Surrounds(DownR(c, t), key)
    ensures Plug(DownR(c, t), t.r) == Plug(c, t)
    ensures Lo(DownR(c, t)) == Bound.At(t.x.key) && Hi(DownR(c, t)) == Hi(c)
  {
    PlugInorder(c, t);
    hide Less;
    var s := Inorder(Plug(c, t));
    var i := |Before(c)| + |Inorder(t.l)|;
    var a := Before(c) + Inorder(t.l) + [t.x];
    forall j | 0 <= j < |a| ensures Less(a[j].key, key) {
      assert a[j] == s[j] && s[i] == t.x;
      if j < i {
        LessTransitive(a[j].key, t.x.key, key);
      }
    }
  }

  /** An empty focus surrounded by key: the key is not stored. */
  lemma NotStored(c: Ctx, key: Key)
    requires Sorted(Inorder(Plug(c, Nil))) && Surrounds(c, key)
    ensures key !in MapOf(Inorder(Plug(c, Nil)))
    ensures Inorder(Plug(c, Nil)) == Before(c) + After(c)
  {
    PlugInorder(c, Nil);
    assert Before(c) + [] + After(c) == Before(c) + After(c);
    AbsentWhenFits(Before(c), key, After(c));
  }

  /** A focus whose root holds key: that pair is the stored one. */
  lemma Stored(c: Ctx, t: Tree)
    requires Sorted(Inorder(Plug(c, t))) && t.Bin?
    ensures t.x in Inorder(Plug(c, t))
    ensures t.x.key in MapOf(Inorder(Plug(c, t))) && MapOf(Inorder(Plug(c, t)))[t.x.key] == t.x
  {
    PlugInorder(c, t);
    assert t.x in Inorder(t);
  }

  /** Every stored key is one that a pair may have. */
  predicate KeysValid(s: seq<Pair>) {
    forall p :: p in s ==> |p.key| > 0
  }
}
