/** The lanes shared by hm4/skiplist.cc and hm4/unrolledskiplist.cc. Heights are whatever the random source gives. */
module SkipLane {
  /** The first node from i on that is in lane h, given the heights of all nodes. */
  function NextIdx(hs: seq<nat>, i: nat, h: nat): (k: nat)
    requires i <= |hs|
    ensures i <= k <= |hs| && (k < |hs| ==> hs[k] > h) && forall j :: i <= j < k ==> hs[j] <= h
    decreases |hs| - i
  {
    if i == |hs| || hs[i] > h then i else NextIdx(hs, i + 1, h)
  }

  /** The last node before r that is in lane h, or -1. */
  function LastIdx(hs: seq<nat>, r: nat, h: nat): (p: int)
    requires r <= |hs|
    ensures -1 <= p < r && (p >= 0 ==> hs[p] > h) && forall j :: p < j < r ==> hs[j] <= h
  {
    if r == 0 then -1 else if hs[r - 1] > h then r - 1 else LastIdx(hs, r - 1, h)
  }

  lemma NextUnique(hs: seq<nat>, i: nat, h: nat, k: nat)
    requires i <= k <= |hs| && (k < |hs| ==> hs[k] > h) && forall j :: i <= j < k ==> hs[j] <= h
    ensures NextIdx(hs, i, h) == k
  {
    var n := NextIdx(hs, i, h);
    hide NextIdx;
    assert n < |hs| ==> hs[n] > h;
    assert k < |hs| ==> hs[k] > h;
  }

  lemma LastUnique(hs: seq<nat>, r: nat, h: nat, p: int)
    requires r <= |hs| && -1 <= p < r && (p >= 0 ==> hs[p] > h) && forall j :: p < j < r ==> hs[j] <= h
    ensures LastIdx(hs, r, h) == p
  {
    var n := LastIdx(hs, r, h);
    hide LastIdx;
    assert n >= 0 ==> hs[n] > h;
    assert p >= 0 ==> hs[p] > h;
  }

  /** Where the node after row i is in lane h once a node of height x stands at r. */
  function Shifted(hs: seq<nat>, r: nat, x: nat, i: nat, h: nat): nat
    requires r <= |hs| && i <= |hs| + 1
  {
    if i > r then NextIdx(hs, i - 1, h) + 1
    else if x > h && LastIdx(hs, r, h) < i then r
    else if NextIdx(hs, i, h) < r then NextIdx(hs, i, h)
    else NextIdx(hs, i, h) + 1
  }

  lemma NextInserted(hs: seq<nat>, r: nat, x: nat, i: nat, h: nat)
    requires r <= |hs| && i <= |hs| + 1
    ensures NextIdx(hs[..r] + [x] + hs[r..], i, h) == Shifted(hs, r, x, i, h)
  {
    var hs' := hs[..r] + [x] + hs[r..];
    assert forall j :: 0 <= j < r ==> hs'[j] == hs[j];
    assert forall j :: r < j < |hs'| ==> hs'[j] == hs[j - 1];
    assert hs'[r] == x;
    var k := Shifted(hs, r, x, i, h);
    if i <= r {
      var n, p := NextIdx(hs, i, h), LastIdx(hs, r, h);
      assert n < r ==> p >= n;
      assert p >= i ==> n <= p;
    }
    hide NextIdx;
    hide LastIdx;
    NextUnique(hs', i, h, k);
  }

  lemma LastInserted(hs: seq<nat>, r: nat, x: nat, h: nat)
    requires r <= |hs|
    ensures LastIdx(hs[..r] + [x] + hs[r..], r, h) == LastIdx(hs, r, h)
  {
    var hs' := hs[..r] + [x] + hs[r..];
    var p := LastIdx(hs, r, h);
    hide LastIdx;
    assert forall j :: 0 <= j < r ==> hs'[j] == hs[j];
    LastUnique(hs', r, h, p);
  }
}

module SkipLanes {
  import opened SkipLane

  const MAX_HEIGHT: nat := 64

  class Node<T> {
    const height: nat
    var data: T
    var next: seq<Node?<T>>

    constructor (height: nat, data: T)
      ensures this.height == height && this.data == data
      ensures |next| == height && forall h :: 0 <= h < height ==> next[h] == null
    {
      this.height, this.data := height, data;
      this.next := seq(height, _ => null);
    }
  }

  function Heights<T>(nodes: seq<Node<T>>): (hs: seq<nat>)
    ensures |hs| == |nodes| && forall i :: 0 <= i < |nodes| ==> hs[i] == nodes[i].height
  {
    seq(|nodes|, i requires 0 <= i < |nodes| => nodes[i].height)
  }

  function NodeAt<T>(nodes: seq<Node<T>>, k: int): Node?<T> {
    if 0 <= k < |nodes| then nodes[k] else null
  }

  function With<T>(nodes: seq<Node<T>>, r: nat, x: Node<T>): (nodes': seq<Node<T>>)
    requires r <= |nodes|
    ensures |nodes'| == |nodes| + 1
  {
    nodes[..r] + [x] + nodes[r..]
  }

  predicate Distinct<T>(nodes: seq<Node<T>>) {
    forall i, j :: 0 <= i < j < |nodes| ==> nodes[i] != nodes[j]
  }

  /** The node that follows row i in lane h; row 0 is heads_, row i + 1 the next table of node i. */
  function Follow<T>(nodes: seq<Node<T>>, i: nat, h: nat): Node?<T>
    requires i <= |nodes|
  {
    NodeAt(nodes, NextIdx(Heights(nodes), i, h))
  }

  /** The owner of the last table before r that reaches lane h; null stands for heads_. */
  function Owner<T>(nodes: seq<Node<T>>, r: nat, h: nat): Node?<T>
    requires r <= |nodes|
  {
    NodeAt(nodes, LastIdx(Heights(nodes), r, h))
  }

  lemma HeightsInserted<T>(nodes: seq<Node<T>>, r: nat, x: Node<T>)
    requires r <= |nodes|
    ensures Heights(With(nodes, r, x)) == Heights(nodes)[..r] + [x.height] + Heights(nodes)[r..]
  {
  }

  /** What inserting a node changes in the lanes: the last table before it leads to it, it leads to what that
      table led to, and every other link stays. */
  lemma FollowInserted<T>(nodes: seq<Node<T>>, r: nat, x: Node<T>, i: nat, h: nat)
    requires r <= |nodes| && i <= |nodes| + 1
    ensures Follow(With(nodes, r, x), i, h) ==
      if i > r then Follow(nodes, i - 1, h)
      else if x.height > h && LastIdx(Heights(nodes), r, h) < i then x
      else Follow(nodes, i, h)
  {
    hide NextIdx;
    hide LastIdx;
    hide Heights;
    hide With;
    var hs := Heights(nodes);
    HeightsInserted(nodes, r, x);
    NextInserted(hs, r, x.height, i, h);
    WithAt(nodes, r, x);
  }

  lemma OwnerInserted<T>(nodes: seq<Node<T>>, r: nat, x: Node<T>, h: nat)
    requires r <= |nodes|
    ensures Owner(With(nodes, r, x), r, h) == Owner(nodes, r, h)
    ensures LastIdx(Heights(With(nodes, r, x)), r, h) == LastIdx(Heights(nodes), r, h)
  {
    hide LastIdx;
    hide Heights;
    hide With;
    HeightsInserted(nodes, r, x);
    LastInserted(Heights(nodes), r, x.height, h);
    WithAt(nodes, r, x);
  }

  /** Behind the owner the lane goes on at r. */
  lemma FollowOwner<T>(nodes: seq<Node<T>>, r: nat, h: nat)
    requires r <= |nodes|
    ensures Follow(nodes, LastIdx(Heights(nodes), r, h) + 1, h) == Follow(nodes, r, h)
  {
    var hs := Heights(nodes);
    var p, n := LastIdx(hs, r, h), NextIdx(hs, r, h);
    hide LastIdx;
    hide NextIdx;
    NextUnique(hs, p + 1, h, n);
  }

  lemma WithAt<T>(nodes: seq<Node<T>>, r: nat, x: Node<T>)
    requires r <= |nodes|
    ensures With(nodes, r, x)[r] == x
    ensures forall j :: 0 <= j < r ==> With(nodes, r, x)[j] == nodes[j]
    ensures forall j :: r < j <= |nodes| ==> With(nodes, r, x)[j] == nodes[j - 1]
  {
  }

  lemma WithMembers<T>(nodes: seq<Node<T>>, r: nat, x: Node<T>)
    requires r <= |nodes|
    ensures forall k :: 0 <= k < |With(nodes, r, x)| ==> With(nodes, r, x)[k] in nodes || With(nodes, r, x)[k] == x
    ensures x in With(nodes, r, x) && forall k :: 0 <= k < |nodes| ==> nodes[k] in With(nodes, r, x)
  {
    var all := With(nodes, r, x);
    WithAt(nodes, r, x);
    assert forall k :: 0 <= k < |nodes| ==> all[if k < r then k else k + 1] == nodes[k];
  }

  lemma WithDistinct<T>(nodes: seq<Node<T>>, r: nat, x: Node<T>)
    requires r <= |nodes|
    ensures Distinct(With(nodes, r, x)) <==> Distinct(nodes) && x !in nodes
  {
    var all := With(nodes, r, x);
    WithAt(nodes, r, x);
    hide With;
    if Distinct(all) {
      forall i, j | 0 <= i < j < |nodes| ensures nodes[i] != nodes[j] {
        assert all[if i < r then i else i + 1] == nodes[i] && all[if j < r then j else j + 1] == nodes[j];
      }
      assert forall i :: 0 <= i < |nodes| ==> all[if i < r then i else i + 1] == nodes[i];
    }
  }

  /** The same for the rows that reach the lane: i is a node of the list, h below the height of the new one. */
  lemma FollowRow<T>(nodes: seq<Node<T>>, r: nat, x: Node<T>, i: nat, h: nat)
    requires r <= |nodes| && i < |nodes| && nodes[i].height > h
    ensures With(nodes, r, x)[if i < r then i else i + 1] == nodes[i]
    ensures Follow(With(nodes, r, x), if i < r then i + 1 else i + 2, h) ==
      if x.height > h && i == LastIdx(Heights(nodes), r, h) then x else Follow(nodes, i + 1, h)
  {
    var p := LastIdx(Heights(nodes), r, h);
    assert i < r ==> i <= p;
    hide LastIdx;
    hide NextIdx;
    hide Follow;
    FollowInserted(nodes, r, x, if i < r then i + 1 else i + 2, h);
  }

  /** The linked structure of a skip list, whatever its nodes hold. */
  class Lanes<T> {
    var heads: seq<Node?<T>>
    ghost var nodes: seq<Node<T>>

    ghost predicate Shape()
      reads this`heads, this`nodes, nodes
    {
      |heads| == MAX_HEIGHT && Distinct(nodes) && Tables(nodes)
    }

    ghost predicate Linked()
      reads this`heads, this`nodes, nodes
    {
      Shape() && forall h :: 0 <= h < MAX_HEIGHT ==> Lane(nodes, h)
    }

    constructor ()
      ensures Linked() && nodes == []
    {
      heads := seq(MAX_HEIGHT, _ => null);
      nodes := [];
    }

    /** The next pointer of row i in lane h. */
    function Link(owner: Node?<T>, h: nat): Node?<T>
      requires h < |heads| && (owner != null ==> h < |owner.next|)
      reads this, owner
    {
      if owner == null then heads[h] else owner.next[h]
    }

    /** Lane h joins the nodes of list that reach it, in order. */
    ghost predicate Lane(list: seq<Node<T>>, h: nat)
      requires h < |heads| && forall n :: n in list ==> |n.next| == n.height
      reads this`heads, list
    {
      && heads[h] == Follow(list, 0, h)
      && forall i :: 0 <= i < |list| && list[i].height > h ==> list[i].next[h] == Follow(list, i + 1, h)
    }

    ghost predicate Cursor(cur: Node?<T>, p: int, r: nat, h: int)
      reads this
    {
      -1 <= p < r <= |nodes| && cur == NodeAt(nodes, p) && (p >= 0 ==> nodes[p].height >= h)
    }

    function Next(cur: Node?<T>, h: nat, ghost p: int, ghost r: nat): (n: Node?<T>)
      requires Linked() && h < MAX_HEIGHT && Cursor(cur, p, r, h + 1)
      reads this, nodes, cur
      ensures n == Follow(nodes, p + 1, h)
    {
      assert Lane(nodes, h);
      assert p >= 0 ==> nodes[p] in nodes;
      Link(cur, h)
    }

    /** Nodes that may be linked: every one with a table of its height. */
    ghost predicate Tables(list: seq<Node<T>>)
      reads list
    {
      forall n :: n in list ==> 0 < n.height <= MAX_HEIGHT && |n.next| == n.height
    }

    /** Lane h of the list with x at r: x leads to what its predecessor led to, the predecessor leads to x. */
    lemma LaneOf(list: seq<Node<T>>, r: nat, x: Node<T>, h: nat)
      requires |heads| == MAX_HEIGHT && h < MAX_HEIGHT && r <= |list| && Tables(With(list, r, x)) && Tables(list)
      requires x.height > h && x.next[h] == Follow(list, r, h)
      requires heads[h] == if LastIdx(Heights(list), r, h) == -1 then x else Follow(list, 0, h)
      requires forall i :: 0 <= i < |list| && list[i].height > h ==>
        list[i].next[h] == if i == LastIdx(Heights(list), r, h) then x else Follow(list, i + 1, h)
      ensures Lane(With(list, r, x), h)
    {
      hide LastIdx;
      hide NextIdx;
      hide Follow;
      hide Heights;
      hide With;
      var all := With(list, r, x);
      FollowInserted(list, r, x, 0, h);
      FollowInserted(list, r, x, r + 1, h);
      forall i | 0 <= i < |list| && list[i].height > h
        ensures list[i].next[h] == Follow(all, if i < r then i + 1 else i + 2, h)
      {
        FollowRow(list, r, x, i, h);
      }
      LaneRowsOf(list, r, x, h);
    }

    lemma LaneRowsOf(list: seq<Node<T>>, r: nat, x: Node<T>, h: nat)
      requires |heads| == MAX_HEIGHT && h < MAX_HEIGHT && r <= |list| && Tables(With(list, r, x)) && Tables(list)
      requires heads[h] == Follow(With(list, r, x), 0, h) && (x.height > h ==> x.next[h] == Follow(With(list, r, x), r + 1, h))
      requires forall i :: 0 <= i < |list| && list[i].height > h ==>
        list[i].next[h] == Follow(With(list, r, x), if i < r then i + 1 else i + 2, h)
      ensures Lane(With(list, r, x), h)
    {
      hide Follow;
      hide With;
      WithAt(list, r, x);
      var all := With(list, r, x);
      forall j | 0 <= j < |all| && all[j].height > h ensures all[j].next[h] == Follow(all, j + 1, h) {
        if j < r {
          assert all[j] == list[j];
        } else if j > r {
          assert all[j] == list[j - 1];
          assert list[j - 1].next[h] == Follow(all, j + 1, h);
        }
      }
    }

    /** The other way round: without x, where its predecessor leads to what x led to. */
    lemma LaneWithout(list: seq<Node<T>>, r: nat, x: Node<T>, h: nat)
      requires |heads| == MAX_HEIGHT && h < MAX_HEIGHT && r <= |list| && Tables(With(list, r, x)) && Tables(list)
      requires heads[h] == if x.height > h && LastIdx(Heights(list), r, h) == -1 then Follow(list, r, h) else Follow(With(list, r, x), 0, h)
      requires forall i :: 0 <= i < |list| && list[i].height > h ==>
        list[i].next[h] ==
          if x.height > h && i == LastIdx(Heights(list), r, h) then Follow(list, r, h)
          else Follow(With(list, r, x), if i < r then i + 1 else i + 2, h)
      ensures Lane(list, h)
    {
      hide LastIdx;
      hide NextIdx;
      hide Follow;
      hide Heights;
      hide With;
      FollowInserted(list, r, x, 0, h);
      FollowOwner(list, r, h);
      forall i | 0 <= i < |list| && list[i].height > h ensures list[i].next[h] == Follow(list, i + 1, h) {
        FollowRow(list, r, x, i, h);
      }
    }

    /** Row i leads on as if x were not there. */
    ghost predicate RowSkips(list: seq<Node<T>>, r: nat, x: Node<T>, i: int, h: nat)
      requires r <= |list|
    {
      0 <= i < |list| && Follow(With(list, r, x), if i < r then i + 1 else i + 2, h) == Follow(list, i + 1, h)
    }

    /** A node too low for the lane does not matter to it. */
    lemma LaneSkips(list: seq<Node<T>>, r: nat, x: Node<T>, h: nat)
      requires |heads| == MAX_HEIGHT && h < MAX_HEIGHT && r <= |list| && Tables(With(list, r, x)) && Tables(list)
      requires x.height <= h
      ensures Lane(list, h) <==> Lane(With(list, r, x), h)
    {
      hide LastIdx;
      hide NextIdx;
      hide Follow;
      hide Heights;
      hide With;
      FollowInserted(list, r, x, 0, h);
      forall i | 0 <= i < |list| ensures RowSkips(list, r, x, i, h) {
        FollowInserted(list, r, x, if i < r then i + 1 else i + 2, h);
      }
      if Lane(list, h) {
        LaneIn(list, r, x, h);
      }
      if Lane(With(list, r, x), h) {
        LaneOut(list, r, x, h);
      }
    }

    lemma LaneIn(list: seq<Node<T>>, r: nat, x: Node<T>, h: nat)
      requires |heads| == MAX_HEIGHT && h < MAX_HEIGHT && r <= |list| && Tables(With(list, r, x)) && Tables(list)
      requires x.height <= h && Lane(list, h) && Follow(With(list, r, x), 0, h) == Follow(list, 0, h)
      requires forall i :: 0 <= i < |list| ==> RowSkips(list, r, x, i, h)
      ensures Lane(With(list, r, x), h)
    {
      hide Follow;
      hide With;
      var all := With(list, r, x);
      WithAt(list, r, x);
      forall j | 0 <= j < |all| && all[j].height > h ensures all[j].next[h] == Follow(all, j + 1, h) {
        var i := if j < r then j else j - 1;
        assert all[j] == list[i] && RowSkips(list, r, x, i, h);
      }
    }

    lemma LaneOut(list: seq<Node<T>>, r: nat, x: Node<T>, h: nat)
      requires |heads| == MAX_HEIGHT && h < MAX_HEIGHT && r <= |list| && Tables(With(list, r, x)) && Tables(list)
      requires Lane(With(list, r, x), h) && Follow(With(list, r, x), 0, h) == Follow(list, 0, h)
      requires forall i :: 0 <= i < |list| ==> RowSkips(list, r, x, i, h)
      ensures Lane(list, h)
    {
      hide Follow;
      hide With;
      var all := With(list, r, x);
      WithAt(list, r, x);
      forall i | 0 <= i < |list| && list[i].height > h ensures list[i].next[h] == Follow(list, i + 1, h) {
        var j := if i < r then i else i + 1;
        assert all[j] == list[i] && RowSkips(list, r, x, i, h);
      }
    }

    /** The exchange of two links of lane i touches no other lane. */
    method Exchange(owner: Node?<T>, x: Node<T>, i: nat, ghost list: seq<Node<T>>)
      requires |heads| == MAX_HEIGHT && x !in nodes && Tables(nodes) && |x.next| == x.height && i < x.height <= MAX_HEIGHT
      requires owner != null ==> owner in nodes && i < owner.height
      requires Tables(list) && forall k :: 0 <= k < |list| ==> list[k] in nodes || list[k] == x
      modifies this`heads, nodes`next, x`next
      ensures |heads| == MAX_HEIGHT && Tables(nodes) && |x.next| == x.height && Tables(list)
      ensures forall h :: 0 <= h < MAX_HEIGHT && h != i && old(Lane(nodes, h)) ==> Lane(nodes, h)
      ensures forall h :: 0 <= h < MAX_HEIGHT && h != i && old(Lane(list, h)) ==> Lane(list, h)
      ensures x.next[i] == old(Link(owner, i)) && heads[i] == if owner == null then x else old(heads[i])
      ensures forall n :: n in nodes && i < n.height ==> n.next[i] == if n == owner then x else old(n.next[i])
    {
      hide Follow;
      x.next := x.next[i := Link(owner, i)];
      if owner == null {
        heads := heads[i := x];
      } else {
        owner.next := owner.next[i := x];
      }
    }

    /** newnode->next[i] = std::exchange(*nl.prev[i], newnode) */
    method LinkLane(owner: Node?<T>, x: Node<T>, ghost r: nat, i: nat)
      requires |heads| == MAX_HEIGHT && Distinct(nodes) && x !in nodes && r <= |nodes| && i < x.height
      requires Tables(nodes) && Tables(With(nodes, r, x)) && 0 < x.height <= MAX_HEIGHT && |x.next| == x.height
      requires Lane(nodes, i) && owner == Owner(nodes, r, i)
      modifies this`heads, nodes`next, x`next
      ensures nodes == old(nodes) && |heads| == MAX_HEIGHT && Tables(nodes) && |x.next| == x.height
      ensures forall h :: 0 <= h < MAX_HEIGHT && h != i && old(Lane(nodes, h)) ==> Lane(nodes, h)
      ensures forall h :: 0 <= h < MAX_HEIGHT && h != i && old(Lane(With(nodes, r, x), h)) ==> Lane(With(nodes, r, x), h)
      ensures Tables(With(nodes, r, x)) && Lane(With(nodes, r, x), i)
    {
      hide LastIdx;
      hide NextIdx;
      hide Follow;
      hide Heights;
      hide With;
      OwnerOf(nodes, r, i);
      FollowOwner(nodes, r, i);
      ghost var p := LastIdx(Heights(nodes), r, i);
      assert Link(owner, i) == Follow(nodes, r, i);
      WithMembers(nodes, r, x);
      Exchange(owner, x, i, With(nodes, r, x));
      forall k | 0 <= k < |nodes| && nodes[k].height > i ensures nodes[k].next[i] == if k == p then x else Follow(nodes, k + 1, i) {
        assert nodes[k] in nodes;
      }
      LaneOf(nodes, r, x, i);
    }

    lemma WithTables(r: nat, x: Node<T>)
      requires r <= |nodes| && Tables(nodes) && 0 < x.height <= MAX_HEIGHT && |x.next| == x.height
      ensures Tables(With(nodes, r, x))
    {
    }

    /** One round of the loop that places a new node. */
    method LinkStep(owner: Node?<T>, x: Node<T>, ghost r: nat, i: nat)
      requires |heads| == MAX_HEIGHT && Distinct(nodes) && x !in nodes && r <= |nodes| && i < x.height
      requires Tables(nodes) && Tables(With(nodes, r, x)) && 0 < x.height <= MAX_HEIGHT && |x.next| == x.height
      requires (forall h :: 0 <= h < i ==> Lane(With(nodes, r, x), h)) && (forall h :: i <= h < MAX_HEIGHT ==> Lane(nodes, h))
      requires owner == Owner(nodes, r, i)
      modifies this`heads, nodes`next, x`next
      ensures |heads| == MAX_HEIGHT && Tables(nodes) && Tables(With(nodes, r, x)) && |x.next| == x.height
      ensures (forall h :: 0 <= h <= i ==> Lane(With(nodes, r, x), h)) && (forall h :: i < h < MAX_HEIGHT ==> Lane(nodes, h))
    {
      hide Lanes.Lane;
      hide Owner;
      hide With;
      LinkLane(owner, x, r, i);
    }

    /** Placing a new node in all its lanes. */
    method Attach(prev: seq<Node?<T>>, x: Node<T>, ghost r: nat)
      requires Linked() && x !in nodes && r <= |nodes| && |prev| == MAX_HEIGHT
      requires 0 < x.height <= MAX_HEIGHT && |x.next| == x.height
      requires forall h :: 0 <= h < MAX_HEIGHT ==> prev[h] == Owner(nodes, r, h)
      modifies this`heads, this`nodes, nodes`next, x`next
      ensures nodes == With(old(nodes), r, x) && Linked()
    {
      hide Lanes.Lane;
      hide Owner;
      hide With;
      WithTables(r, x);
      for i := 0 to x.height
        invariant nodes == old(nodes) && |heads| == MAX_HEIGHT && Tables(nodes) && Tables(With(nodes, r, x)) && |x.next| == x.height
        invariant (forall h :: 0 <= h < i ==> Lane(With(nodes, r, x), h)) && (forall h :: i <= h < MAX_HEIGHT ==> Lane(nodes, h))
      {
        LinkStep(prev[i], x, r, i);
      }
      forall h | x.height <= h < MAX_HEIGHT ensures Lane(With(nodes, r, x), h) {
        LaneSkips(nodes, r, x, h);
      }
      WithMembers(nodes, r, x);
      WithDistinct(nodes, r, x);
      nodes := With(nodes, r, x);
      forall n | n in nodes ensures 0 < n.height <= MAX_HEIGHT && |n.next| == n.height {
        var k :| 0 <= k < |nodes| && nodes[k] == n;
      }
    }

    /** Taking x out of lane h: the table before it leads on to what x led to. */
    method UnlinkLane(owner: Node?<T>, x: Node<T>, ghost list: seq<Node<T>>, ghost r: nat, h: nat)
      requires |heads| == MAX_HEIGHT && r <= |list| && nodes == With(list, r, x) && Distinct(nodes) && Tables(nodes) && Tables(list)
      requires h < x.height <= MAX_HEIGHT && Lane(nodes, h) && owner == Owner(list, r, h)
      modifies this`heads, list`next
      ensures |heads| == MAX_HEIGHT && Tables(nodes) && Tables(list) && Lane(list, h)
      ensures forall g :: 0 <= g < MAX_HEIGHT && g != h && old(Lane(nodes, g)) ==> Lane(nodes, g)
      ensures forall g :: 0 <= g < MAX_HEIGHT && g != h && old(Lane(list, g)) ==> Lane(list, g)
    {
      hide LastIdx;
      hide NextIdx;
      hide Follow;
      hide Heights;
      hide With;
      hide Lanes.Lane;
      hide Owner;
      LaneRows(list, r, x, h);
      OwnerOf(list, r, h);
      ghost var p := LastIdx(Heights(list), r, h);
      Redirect(owner, x.next[h], h, list);
      forall i | 0 <= i < |list| && list[i].height > h
        ensures list[i].next[h] == if i == p then Follow(list, r, h) else Follow(nodes, if i < r then i + 1 else i + 2, h)
      {
        assert list[i] in list;
      }
      LaneWithout(list, r, x, h);
    }

    lemma LaneRows(list: seq<Node<T>>, r: nat, x: Node<T>, h: nat)
      requires |heads| == MAX_HEIGHT && h < MAX_HEIGHT && r <= |list| && nodes == With(list, r, x) && Tables(nodes) && Tables(list)
      requires Lane(nodes, h) && x.height > h && Distinct(nodes)
      ensures x in nodes && heads[h] == Follow(nodes, 0, h) && x.next[h] == Follow(list, r, h) && Distinct(list)
      ensures forall i :: 0 <= i < |list| && list[i].height > h ==> list[i].next[h] == Follow(nodes, if i < r then i + 1 else i + 2, h)
    {
      hide LastIdx;
      hide NextIdx;
      hide Follow;
      hide Heights;
      hide With;
      WithAt(list, r, x);
      WithDistinct(list, r, x);
      FollowInserted(list, r, x, r + 1, h);
      forall i | 0 <= i < |list| && list[i].height > h ensures list[i].next[h] == Follow(nodes, if i < r then i + 1 else i + 2, h) {
        assert list[i] == nodes[if i < r then i else i + 1];
      }
    }

    lemma OwnerOf(list: seq<Node<T>>, r: nat, h: nat)
      requires r <= |list|
      ensures var p := LastIdx(Heights(list), r, h);
        && -1 <= p < r
        && if p == -1 then Owner(list, r, h) == null else Owner(list, r, h) == list[p] && list[p] in list && list[p].height > h
    {
    }

    method Redirect(owner: Node?<T>, to: Node?<T>, h: nat, ghost list: seq<Node<T>>)
      requires |heads| == MAX_HEIGHT && h < MAX_HEIGHT && Tables(nodes) && Tables(list)
      requires owner != null ==> owner in list && h < owner.height
      modifies this`heads, list`next
      ensures |heads| == MAX_HEIGHT && Tables(nodes) && Tables(list)
      ensures heads[h] == if owner == null then to else old(heads[h])
      ensures forall n :: n in nodes + list && h < n.height ==> n.next[h] == if n == owner then to else old(n.next[h])
      ensures forall g :: 0 <= g < MAX_HEIGHT && g != h && old(Lane(nodes, g)) ==> Lane(nodes, g)
      ensures forall g :: 0 <= g < MAX_HEIGHT && g != h && old(Lane(list, g)) ==> Lane(list, g)
    {
      hide Follow;
      if owner == null {
        heads := heads[h := to];
      } else {
        owner.next := owner.next[h := to];
      }
    }

    /** Taking a node out of all its lanes; the loop ends at the first lane that does not lead to it. */
    method Detach(prev: seq<Node?<T>>, x: Node<T>, ghost list: seq<Node<T>>, ghost r: nat)
      requires Linked() && r <= |list| && nodes == With(list, r, x) && |prev| == MAX_HEIGHT
      requires forall h :: 0 <= h < MAX_HEIGHT ==> prev[h] == Owner(nodes, r, h)
      modifies this`heads, this`nodes, list`next
      ensures nodes == list && Linked()
    {
      hide Lanes.Lane;
      hide With;
      hide Owner;
      WithMembers(list, r, x);
      WithDistinct(list, r, x);
      Leads(prev, x, list, r, 0);
      UnlinkLane(prev[0], x, list, r, 0);
      var h := 1;
      while h < MAX_HEIGHT
        invariant 1 <= h <= MAX_HEIGHT && h <= x.height && |heads| == MAX_HEIGHT && Tables(nodes) && Tables(list)
        invariant nodes == With(list, r, x)
        invariant (forall g :: 0 <= g < h ==> Lane(list, g)) && (forall g :: h <= g < MAX_HEIGHT ==> Lane(nodes, g))
      {
        Leads(prev, x, list, r, h);
        if Link(prev[h], h) != x {
          break;
        }
        UnlinkLane(prev[h], x, list, r, h);
        h := h + 1;
      }
      forall g | h <= g < MAX_HEIGHT ensures Lane(list, g) {
        LaneSkips(list, r, x, g);
      }
      nodes := list;
    }

    /** The table in front of x leads to x in lane h exactly when x is that high. */
    lemma Leads(prev: seq<Node?<T>>, x: Node<T>, list: seq<Node<T>>, r: nat, h: nat)
      requires |heads| == MAX_HEIGHT && r <= |list| && nodes == With(list, r, x) && Distinct(nodes) && Tables(nodes)
      requires h < MAX_HEIGHT && Lane(nodes, h) && |prev| == MAX_HEIGHT && prev[h] == Owner(nodes, r, h)
      ensures prev[h] == Owner(list, r, h) && (prev[h] != null ==> h < prev[h].height && prev[h] in nodes)
      ensures Link(prev[h], h) == x <==> x.height > h
    {
      hide LastIdx;
      hide NextIdx;
      hide Heights;
      WithAt(list, r, x);
      OwnerInserted(list, r, x, h);
      OwnerOf(nodes, r, h);
      hide With;
      FollowOwner(nodes, r, h);
      NextIs(r, h);
    }

    lemma NextIs(r: nat, h: nat)
      requires r < |nodes| && Distinct(nodes)
      ensures Follow(nodes, r, h) == nodes[r] <==> nodes[r].height > h
    {
    }

    lemma Remove(r: nat) returns (list: seq<Node<T>>)
      requires r < |nodes|
      ensures |list| == |nodes| - 1 && nodes == With(list, r, nodes[r])
      ensures forall i :: 0 <= i < |list| ==> list[i] == nodes[if i < r then i else i + 1]
    {
      list := nodes[..r] + nodes[r + 1..];
    }

    /** Every node is in lane 0. */
    lemma Bottom(r: nat)
      requires Tables(nodes) && r <= |nodes|
      ensures NextIdx(Heights(nodes), r, 0) == r && Follow(nodes, r, 0) == NodeAt(nodes, r)
      ensures LastIdx(Heights(nodes), r, 0) == r - 1
    {
      if r < |nodes| {
        assert nodes[r] in nodes;
      }
      if r > 0 {
        assert nodes[r - 1] in nodes;
      }
    }

    /** A node that is no higher than the lane does not change the owner behind it. */
    lemma OwnerSkips(t: nat, h: nat)
      requires t < |nodes| && nodes[t].height <= h
      ensures LastIdx(Heights(nodes), t + 1, h) == LastIdx(Heights(nodes), t, h)
    {
    }

    lemma NoneAbove(r: nat)
      requires Tables(nodes) && r <= |nodes|
      ensures LastIdx(Heights(nodes), r, MAX_HEIGHT) == -1
    {
      assert forall i :: 0 <= i < |nodes| ==> nodes[i] in nodes;
    }
  }
}
