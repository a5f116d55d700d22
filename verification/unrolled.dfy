/** The unrolled skip list memtable of hm4/unrolledskiplist.cc: a skip list whose nodes hold sorted blocks. */
module UnrolledSkipList {
  import opened Keys
  import opened Pairs
  import opened HPair
  import opened Blocks
  import opened SkipLane
  import opened SkipLanes

  class UnrolledSkipList {
    const lanes: Lanes<Block>
    const capacity: nat
    var count: nat
    var bytes: nat

    /** The blocks in lane 0. */
    ghost function Parts(): (bs: seq<Block>)
      reads lanes`nodes, lanes.nodes
      ensures |bs| == |lanes.nodes| && forall i :: 0 <= i < |bs| ==> bs[i] == lanes.nodes[i].data
    {
      var ns := lanes.nodes;
      seq(|ns|, i requires 0 <= i < |ns| reads ns => ns[i].data)
    }

    ghost function Contents(): (s: seq<Pair>)
      reads lanes`nodes, lanes.nodes
    {
      Flat(Parts())
    }

    /** No block is empty or larger than its array. */
    ghost predicate Filled()
      reads lanes`nodes, lanes.nodes
    {
      forall n :: n in lanes.nodes ==> 0 < |n.data| <= capacity
    }

    ghost predicate Valid()
      reads this, lanes, lanes.nodes
    {
      && lanes.Linked() && Filled() && capacity >= 2 && Sorted(Contents())
      && count == |Contents()| && bytes == TotalBytes(Contents())
    }

    constructor (capacity: nat)
      requires capacity >= 2
      ensures Valid() && Contents() == [] && lanes.nodes == [] && fresh(lanes) && this.capacity == capacity
    {
      lanes := new Lanes<Block>();
      this.capacity, count, bytes := capacity, 0, 0;
    }

    // ---------- search ----------

    lemma Facts()
      requires Valid()
      ensures lanes.Linked() && Full(Parts()) && Sorted(Backs(Parts())) && |Parts()| == |lanes.nodes|
      ensures forall i :: 0 <= i < |lanes.nodes| ==>
        0 < lanes.nodes[i].height <= MAX_HEIGHT && |lanes.nodes[i].next| == lanes.nodes[i].height
      ensures forall i :: 0 <= i < |lanes.nodes| ==> 0 < |lanes.nodes[i].data| <= capacity
    {
      forall i | 0 <= i < |lanes.nodes|
        ensures 0 < |lanes.nodes[i].data| <= capacity
        ensures 0 < lanes.nodes[i].height <= MAX_HEIGHT && |lanes.nodes[i].next| == lanes.nodes[i].height
      {
        assert lanes.nodes[i] in lanes.nodes;
      }
      BacksSorted(Parts());
    }

    lemma Bound(key: Key) returns (r: nat)
      requires Valid()
      ensures Full(Parts()) && LowerBound(Backs(Parts()), key, r) && r <= |lanes.nodes|
    {
      Facts();
      r := LowerBoundExists(Backs(Parts()), key);
    }

    lemma KnownIn(t: nat, key: Key)
      requires Valid() && t < |lanes.nodes| && Known(Contents(), key)
      ensures var b := lanes.nodes[t].data;
        Known(b, key) && b != [] && Tellable(b[|b| - 1].key, key)
    {
      hide Tellable;
      Pieces(t);
      KnownPart(Front(t), lanes.nodes[t].data, Rear(t + 1), key);
    }

    /** The last key of a node places it before or behind the lower bound. */
    lemma Decided(i: nat, r: nat, key: Key)
      requires Valid() && i < |lanes.nodes| && Known(Contents(), key) && Full(Parts()) && LowerBound(Backs(Parts()), key, r)
      ensures |lanes.nodes[i].data| > 0
      ensures var k := lanes.nodes[i].data[|lanes.nodes[i].data| - 1].key;
        && (HKey(k) < HKey(key) || Cmp(HKey(k), k, HKey(key), key) < 0 <==> i < r)
        && (Cmp(HKey(k), k, HKey(key), key) == 0 ==> k == key && i == r)
    {
      hide HKey;
      hide Cmp;
      Facts();
      KnownIn(i, key);
      var n := lanes.nodes[i];
      assert n in lanes.nodes;
      assert Backs(Parts())[i] == n.data[|n.data| - 1];
      hide UnrolledSkipList.Parts;
      Placed(Backs(Parts()), i, r, key);
    }

    /** The prefix test and the comparison with the last key of a node. */
    method Test(node: Node<Block>, key: Key, ghost i: nat, ghost r: nat) returns (below: bool, equal: bool)
      requires Valid() && Known(Contents(), key) && Full(Parts()) && LowerBound(Backs(Parts()), key, r) && i < |lanes.nodes| && node == lanes.nodes[i]
      ensures below == (i < r)
      ensures equal ==> i == r && node.data != [] && node.data[|node.data| - 1].key == key
    {
      hide UnrolledSkipList.Valid;
      hide Cmp;
      hide HKey;
      hide LowerBound;
      hide Backs;
      Decided(i, r, key);
      var k := node.data[|node.data| - 1].key;
      if HKey(k) >= HKey(key) {
        var cmp := Cmp(HKey(k), k, HKey(key), key);
        return cmp < 0, cmp == 0;
      }
      return true, false;
    }

    /** The inner loop: along lane h to the last node whose last key is below the key; at the bottom the last
        node of all is taken without a look at its keys. */
    method Walk(start: Node?<Block>, h: nat, key: Key, ghost q: int, ghost r: nat)
      returns (cur: Node?<Block>, hit: Node?<Block>, equal: bool, ghost p: int, ghost t: nat)
      requires Valid() && Known(Contents(), key) && Full(Parts()) && LowerBound(Backs(Parts()), key, r) && h < MAX_HEIGHT
      requires lanes.Cursor(start, q, r, h + 1)
      ensures lanes.Cursor(cur, p, r, h + 1) && t <= |lanes.nodes| && p == LastIdx(Heights(lanes.nodes), t, h)
      ensures t == r || (h == 0 && r == |lanes.nodes| == t + 1 && q < t)
      ensures hit == if t == r then Follow(lanes.nodes, r, h) else lanes.nodes[t]
      ensures equal ==> t == r < |lanes.nodes| && hit == lanes.nodes[r] && hit.data != [] && hit.data[|hit.data| - 1].key == key
    {
      hide UnrolledSkipList.Valid;
      hide UnrolledSkipList.Parts;
      hide Lanes.Linked;
      hide LowerBound;
      hide Backs;
      hide Full;
      hide Follow;
      hide NextIdx;
      hide LastIdx;
      hide Heights;
      Facts();
      cur, hit, equal, p, t := start, null, false, q, r;
      var node := lanes.Next(cur, h, p, r);
      while node != null
        invariant lanes.Cursor(cur, p, r, h + 1) && node == Follow(lanes.nodes, p + 1, h) && q <= p && hit == null && !equal && t == r
        decreases r - p
      {
        ghost var i := NextIdx(Heights(lanes.nodes), p + 1, h);
        Reached(p, h);
        if h == 0 && lanes.Next(node, 0, i, i + 1) == null {
          hit := node;
          t := i;
          Bottom2(p, i, r);
          return;
        }
        var below;
        below, equal := Test(node, key, i, r);
        if !below {
          Stopped(p, i, r, h);
          hit := node;
          return;
        }
        cur, p := node, i;
        node := lanes.Next(cur, h, p, r);
      }
      Ended(p, r, h);
    }

    lemma Reached(p: int, h: nat)
      requires -1 <= p < |lanes.nodes| && Follow(lanes.nodes, p + 1, h) != null
      ensures var i := NextIdx(Heights(lanes.nodes), p + 1, h);
        p < i < |lanes.nodes| && Follow(lanes.nodes, p + 1, h) == lanes.nodes[i] && lanes.nodes[i].height > h
    {
    }

    lemma Stopped(p: int, i: nat, r: nat, h: nat)
      requires -1 <= p < r <= i < |lanes.nodes| && i == NextIdx(Heights(lanes.nodes), p + 1, h) && (p >= 0 ==> lanes.nodes[p].height > h)
      ensures p == LastIdx(Heights(lanes.nodes), r, h) && Follow(lanes.nodes, r, h) == lanes.nodes[i]
    {
      LastUnique(Heights(lanes.nodes), r, h, p);
      NextUnique(Heights(lanes.nodes), r, h, i);
    }

    lemma Ended(p: int, r: nat, h: nat)
      requires -1 <= p < r <= |lanes.nodes| && Follow(lanes.nodes, p + 1, h) == null && (p >= 0 ==> lanes.nodes[p].height > h)
      ensures p == LastIdx(Heights(lanes.nodes), r, h) && Follow(lanes.nodes, r, h) == null
    {
      LastUnique(Heights(lanes.nodes), r, h, p);
      NextUnique(Heights(lanes.nodes), r, h, |lanes.nodes|);
    }

    lemma Bottom2(p: int, i: nat, r: nat)
      requires lanes.Linked() && -1 <= p < r <= |lanes.nodes| && i < |lanes.nodes| && i == NextIdx(Heights(lanes.nodes), p + 1, 0)
      requires Follow(lanes.nodes, i + 1, 0) == null
      ensures i + 1 == |lanes.nodes| && p == i - 1 && p == LastIdx(Heights(lanes.nodes), i, 0) && (i == r || r == |lanes.nodes|)
    {
      lanes.Bottom(p + 1);
      lanes.Bottom(i + 1);
      lanes.Bottom(i);
    }

    /** The node for a key: the first whose last key is not below it, or the last node when all are below and the
        way down did not already pass it. */
    ghost predicate Target(key: Key, r: nat, t: nat)
      reads lanes`nodes, lanes.nodes
    {
      && Full(Parts()) && LowerBound(Backs(Parts()), key, r) && r <= |lanes.nodes|
      && (t == r || r == |lanes.nodes| == t + 1)
    }

    /** locate_ */
    method Locate(key: Key, shortcut: bool) returns (prev: seq<Node?<Block>>, node: Node?<Block>, found: bool, ghost r: nat, ghost t: nat)
      requires Valid() && Known(Contents(), key)
      ensures Target(key, r, t) && node == NodeAt(lanes.nodes, t)
      ensures found ==> t < |lanes.nodes| && lanes.nodes[t].data != [] && lanes.nodes[t].data[|lanes.nodes[t].data| - 1].key == key
      ensures !shortcut ==> !found
      ensures !found ==> |prev| == MAX_HEIGHT && forall h :: 0 <= h < MAX_HEIGHT ==> prev[h] == Owner(lanes.nodes, t, h)
    {
      hide UnrolledSkipList.Valid;
      hide UnrolledSkipList.Parts;
      hide Lanes.Linked;
      hide LowerBound;
      hide Backs;
      hide Follow;
      hide LastIdx;
      hide NextIdx;
      hide Heights;
      r := Bound(key);
      t := r;
      prev, node, found := seq(MAX_HEIGHT, _ => null), null, false;
      var cur: Node?<Block>, h := null, MAX_HEIGHT;
      ghost var p := -1;
      LocateStart(r);
      while h > 0
        invariant !found && 0 <= h <= MAX_HEIGHT && |prev| == MAX_HEIGHT && (h > 0 ==> lanes.Cursor(cur, p, r, h))
        invariant t <= |lanes.nodes| && (h > 0 ==> t == r && p == LastIdx(Heights(lanes.nodes), r, h))
        invariant t == r || r == |lanes.nodes| == t + 1
        invariant forall g :: h <= g < MAX_HEIGHT ==> prev[g] == Owner(lanes.nodes, t, g)
        invariant if h == 0 then node == NodeAt(lanes.nodes, t) else r == |lanes.nodes| ==> node == null
      {
        h := h - 1;
        var hit, equal;
        ghost var q := p;
        cur, hit, equal, p, t := Walk(cur, h, key, q, r);
        if hit != null {
          node := hit;
          if shortcut && equal {
            found := true;
            return;
          }
        }
        LocateStep(q, t, r, h);
        prev := prev[h := cur];
      }
    }

    lemma LocateStart(r: nat)
      requires Valid() && r <= |lanes.nodes|
      ensures LastIdx(Heights(lanes.nodes), r, MAX_HEIGHT) == -1
    {
      lanes.NoneAbove(r);
    }

    lemma LocateStep(q: int, t: nat, r: nat, h: nat)
      requires Valid() && t <= |lanes.nodes| && r <= |lanes.nodes| && q == LastIdx(Heights(lanes.nodes), r, h + 1)
      requires t == r || (h == 0 && r == |lanes.nodes| == t + 1 && q < t)
      ensures Owner(lanes.nodes, t, h) == NodeAt(lanes.nodes, LastIdx(Heights(lanes.nodes), t, h))
      ensures forall g :: h < g < MAX_HEIGHT ==> Owner(lanes.nodes, t, g) == Owner(lanes.nodes, r, g)
      ensures h == 0 ==> Follow(lanes.nodes, r, h) == NodeAt(lanes.nodes, r)
      ensures r == |lanes.nodes| ==> Follow(lanes.nodes, r, h) == null
    {
      hide LastIdx;
      hide NextIdx;
      hide Heights;
      lanes.Bottom(r);
      Beyond(h);
      hide Follow;
      if t != r {
        Low(q, t, r);
        forall g | h < g < MAX_HEIGHT ensures Owner(lanes.nodes, t, g) == Owner(lanes.nodes, r, g) {
          lanes.OwnerSkips(t, g);
        }
      }
    }

    lemma Beyond(h: nat)
      ensures Follow(lanes.nodes, |lanes.nodes|, h) == null
    {
    }

    lemma Low(q: int, t: nat, r: nat)
      requires r <= |lanes.nodes| && q == LastIdx(Heights(lanes.nodes), r, 1) && q < t < r
      ensures lanes.nodes[t].height <= 1
    {
    }

    // ---------- one node ----------

    /** What lies in front of block t, and behind it. */
    ghost function Front(t: nat): seq<Pair>
      requires t <= |lanes.nodes|
      reads lanes`nodes, lanes.nodes
    {
      Flat(Parts()[..t])
    }

    ghost function Rear(t: nat): seq<Pair>
      requires t <= |lanes.nodes|
      reads lanes`nodes, lanes.nodes
    {
      Flat(Parts()[t..])
    }

    lemma Pieces(t: nat)
      requires Valid() && t < |lanes.nodes|
      ensures var b := lanes.nodes[t].data;
        && Contents() == Front(t) + b + Rear(t + 1) && Sorted(b) && 0 < |b| <= capacity
    {
      hide Flat;
      FlatAt(Parts(), t);
      assert lanes.nodes[t] in lanes.nodes;
      BlockSorted(Front(t), Parts()[t], Rear(t + 1));
    }

    lemma AtHome(key: Key, r: nat, t: nat)
      requires Valid() && Target(key, r, t) && t < |lanes.nodes|
      ensures Home(Front(t), lanes.nodes[t].data, Rear(t + 1), key)
    {
      hide Flat;
      hide LowerBound;
      hide Home;
      BlockAround(Parts(), key, r, t);
    }

    /** The block of a node is replaced. */
    method Store(node: Node<Block>, b: Block, ghost t: nat)
      requires lanes.Linked() && Filled() && t < |lanes.nodes| && node == lanes.nodes[t] && 0 < |b| <= capacity
      modifies node`data
      ensures lanes.Linked() && Filled() && Contents() == old(Front(t)) + b + old(Rear(t + 1))
    {
      hide Flat;
      hide Follow;
      ghost var bs := Parts();
      assert node in lanes.nodes;
      node.data := b;
      forall h | 0 <= h < MAX_HEIGHT ensures lanes.Lane(lanes.nodes, h) {
        assert old(lanes.Lane(lanes.nodes, h));
      }
      assert Parts()[..t] == bs[..t] && Parts()[t + 1..] == bs[t + 1..];
      FlatAt(Parts(), t);
    }

    /** The same with the counters. */
    method Put(node: Node<Block>, b: Block, counts: int, total: int, ghost t: nat)
      requires Valid() && t < |lanes.nodes| && node == lanes.nodes[t] && 0 < |b| <= capacity
      requires |b| == |node.data| + counts && TotalBytes(b) == TotalBytes(node.data) + total
      requires Sorted(Front(t) + b + Rear(t + 1))
      modifies this`count, this`bytes, node`data
      ensures Valid() && Contents() == old(Front(t)) + b + old(Rear(t + 1))
    {
      hide Lanes.Linked;
      hide Sorted;
      hide TotalBytes;
      hide Flat;
      Pieces(t);
      BlockBytes(Front(t), node.data, Rear(t + 1));
      BlockBytes(Front(t), b, Rear(t + 1));
      count := count + counts;
      bytes := bytes + total;
      Store(node, b, t);
    }

    /** PairVector::insertF in the home node of the key. */
    method InsertInto(node: Node<Block>, f: Factory, env: Env, ghost t: nat) returns (st: Status)
      requires Valid() && Known(Contents(), f.key) && f.IsValid() && t < |lanes.nodes| && node == lanes.nodes[t]
      requires Home(Front(t), node.data, Rear(t + 1), f.key)
      requires |node.data| < capacity || exists j :: 0 <= j < |node.data| && node.data[j].key == f.key
      modifies this`count, this`bytes, node`data
      ensures Valid() && (st, MapOf(Contents())) == Insert(old(MapOf(Contents())), f, env)
    {
      hide MapOf;
      hide UnrolledSkipList.Front;
      hide UnrolledSkipList.Rear;
      hide Sorted;
      hide TotalBytes;
      hide Home;
      hide BlockInserted;
      Pieces(t);
      KnownIn(t, f.key);
      var counts, total, b;
      ghost var i;
      st, b, counts, total, i := BlockInsert(node.data, f, env);
      InsertedHome(Front(t), node.data, Rear(t + 1), f, env, i, st, b);
      Put(node, b, counts, total, t);
    }

    // ---------- new nodes ----------

    /** A new node behind all others. */
    method Append(prev: seq<Node?<Block>>, y: Pair, height: nat)
      requires Valid() && Target(y.key, |lanes.nodes|, |lanes.nodes|) && 0 < height <= MAX_HEIGHT && |prev| == MAX_HEIGHT
      requires forall h :: 0 <= h < MAX_HEIGHT ==> prev[h] == Owner(lanes.nodes, |lanes.nodes|, h)
      modifies this, lanes, lanes.nodes`next
      ensures fresh(set n | n in lanes.nodes && n !in old(lanes.nodes))
      ensures Valid() && y.key !in old(MapOf(Contents())) && MapOf(Contents()) == old(MapOf(Contents()))[y.key := y]
    {
      hide Owner;
      hide Lanes.Linked;
      hide Sorted;
      hide LowerBound;
      hide Backs;
      hide TotalBytes;
      hide Flat;
      Absent(y.key);
      Longer(y);
      Hang(prev, y, height);
      hide UnrolledSkipList.Parts;
      count := count + 1;
      bytes := bytes + y.Bytes();
    }

    method Hang(prev: seq<Node?<Block>>, y: Pair, height: nat)
      requires lanes.Linked() && Filled() && capacity >= 2 && 0 < height <= MAX_HEIGHT && |prev| == MAX_HEIGHT
      requires forall h :: 0 <= h < MAX_HEIGHT ==> prev[h] == Owner(lanes.nodes, |lanes.nodes|, h)
      modifies lanes, lanes.nodes`next
      ensures fresh(set n | n in lanes.nodes && n !in old(lanes.nodes))
      ensures lanes.Linked() && Filled() && Contents() == old(Contents()) + [y]
    {
      hide Owner;
      hide With;
      hide Flat;
      hide Lanes.Linked;
      ghost var bs, list := Parts(), lanes.nodes;
      var x := new Node<Block>(height, [y]);
      lanes.Attach(prev, x, |list|);
      NewNodes(list, |list|, x);
      PartsWith(list, |list|, x, bs);
      FlatConcat(bs, [[y]]);
      FlatOne([y]);
    }

    /** The contents with one more pair at the end. */
    lemma Longer(y: Pair)
      requires Valid() && Target(y.key, |lanes.nodes|, |lanes.nodes|) && y.key !in MapOf(Contents())
      ensures var s := Contents();
        Sorted(s + [y]) && MapOf(s + [y]) == MapOf(s)[y.key := y] && TotalBytes(s + [y]) == TotalBytes(s) + y.Bytes()
    {
      hide Flat;
      hide Sorted;
      hide TotalBytes;
      AllBelow(Parts(), y.key);
      hide LowerBound;
      var s := Contents();
      InsertedPairs(s, |s|, y);
      assert s[..|s|] + [y] + s[|s|..] == s + [y];
    }

    lemma NewNodes(list: seq<Node<Block>>, t: nat, x: Node<Block>)
      requires t <= |list| && lanes.nodes == With(list, t, x)
      ensures forall n :: n in lanes.nodes ==> n in list || n == x
    {
      WithMembers(list, t, x);
    }

    lemma PartsWith(list: seq<Node<Block>>, t: nat, x: Node<Block>, bs: seq<Block>)
      requires t <= |list| && lanes.nodes == With(list, t, x) && |bs| == |list| && forall i :: 0 <= i < |list| ==> bs[i] == list[i].data
      ensures Parts() == bs[..t] + [x.data] + bs[t..]
      ensures t == |list| ==> Parts() == bs + [x.data]
    {
      WithAt(list, t, x);
    }

    /** The blocks after the cut of block t at n. */
    lemma Halves(list: seq<Node<Block>>, t: nat, x: Node<Block>, bs: seq<Block>, n: nat)
      requires t < |list| && lanes.nodes == With(list, t, x) && |bs| == |list| && n <= |bs[t]|
      requires x.data == bs[t][..n] && list[t].data == bs[t][n..] && forall i :: 0 <= i < |list| && i != t ==> bs[i] == list[i].data
      ensures Contents() == Flat(bs) && Front(t) == Flat(bs[..t]) && Rear(t + 2) == Flat(bs[t + 1..])
    {
      hide Flat;
      WithAt(list, t, x);
      hide With;
      var ps := Parts();
      assert ps[..t] == bs[..t] && ps[t + 2..] == bs[t + 1..] && ps[t + 1..][1..] == ps[t + 2..];
      FlatAt(bs, t);
      FlatAt(ps, t);
      FlatAt(ps[t + 1..], 0);
      NoPairs();
      assert ps[t + 1..][..0] == [];
      Rejoined(Flat(bs[..t]), bs[t], Flat(bs[t + 1..]), n, []);
    }

    lemma NoPairs()
      ensures Flat([]) == []
    {
    }

    /** merge, then split: the new node in front takes the lower half of the block, the old one keeps the rest. */
    method Deal(x: Node<Block>, node: Node<Block>, ghost list: seq<Node<Block>>, ghost t: nat)
      requires lanes.Linked() && t < |list| && lanes.nodes == With(list, t, x) && node == list[t] && x !in list && x.data == []
      modifies x`data, node`data
      ensures lanes.Linked()
      ensures var b, n := old(node.data), |old(node.data)| / 2; x.data == b[..n] && node.data == b[n..]
    {
      hide Follow;
      hide With;
      WithMembers(list, t, x);
      x.data := x.data + node.data;
      node.data := [];
      var n := |x.data| / 2;
      node.data := node.data + x.data[n..];
      x.data := x.data[..n];
      forall h | 0 <= h < MAX_HEIGHT ensures lanes.Lane(lanes.nodes, h) {
        assert old(lanes.Lane(lanes.nodes, h));
      }
    }

    /** A full node is cut in two: the contents stay, the front half is in the new node. */
    method Split(prev: seq<Node?<Block>>, node: Node<Block>, height: nat, ghost t: nat) returns (x: Node<Block>)
      requires Valid() && t < |lanes.nodes| && node == lanes.nodes[t] && |node.data| == capacity && 0 < height <= MAX_HEIGHT
      requires |prev| == MAX_HEIGHT && forall h :: 0 <= h < MAX_HEIGHT ==> prev[h] == Owner(lanes.nodes, t, h)
      modifies lanes, lanes.nodes`next, node`data
      ensures fresh(x) && lanes.nodes == With(old(lanes.nodes), t, x)
      ensures Valid() && Contents() == old(Contents())
      ensures var b, n := old(node.data), capacity / 2; x.data == b[..n] && node.data == b[n..]
      ensures Front(t) == old(Front(t)) && Rear(t + 2) == old(Rear(t + 1))
    {
      hide Owner;
      hide Lanes.Linked;
      hide Sorted;
      hide TotalBytes;
      hide Flat;
      ghost var bs, list := Parts(), lanes.nodes;
      assert node in list;
      Apart(t);
      x := Divide(prev, node, height, t);
      hide With;
      NewNodes(list, t, x);
      Halves(list, t, x, bs, capacity / 2);
    }

    lemma Apart(t: nat)
      requires lanes.Linked() && t < |lanes.nodes|
      ensures forall i :: 0 <= i < |lanes.nodes| && i != t ==> lanes.nodes[i] != lanes.nodes[t]
    {
    }

    method Divide(prev: seq<Node?<Block>>, node: Node<Block>, height: nat, ghost t: nat) returns (x: Node<Block>)
      requires lanes.Linked() && t < |lanes.nodes| && node == lanes.nodes[t] && 0 < height <= MAX_HEIGHT
      requires |prev| == MAX_HEIGHT && forall h :: 0 <= h < MAX_HEIGHT ==> prev[h] == Owner(lanes.nodes, t, h)
      modifies lanes, lanes.nodes`next, node`data
      ensures fresh(x) && lanes.Linked() && lanes.nodes == With(old(lanes.nodes), t, x)
      ensures var b, n := old(node.data), |old(node.data)| / 2; x.data == b[..n] && node.data == b[n..]
    {
      hide Owner;
      hide With;
      hide Lanes.Linked;
      ghost var list := lanes.nodes;
      x := new Node<Block>(height, []);
      lanes.Attach(prev, x, t);
      Deal(x, node, list, t);
    }

    lemma Steps(t: nat)
      requires t < |lanes.nodes|
      ensures Front(t + 1) == Front(t) + lanes.nodes[t].data && Rear(t) == lanes.nodes[t].data + Rear(t + 1)
    {
      var bs := Parts();
      assert bs[..t + 1] == bs[..t] + [bs[t]] && bs[t..] == [bs[t]] + bs[t + 1..];
      hide Flat;
      FlatConcat(bs[..t], [bs[t]]);
      FlatConcat([bs[t]], bs[t + 1..]);
      FlatOne(bs[t]);
    }

    /** A full node: make room by a cut, then insert into the half where the key belongs. */
    method InsertSplit(prev: seq<Node?<Block>>, node: Node<Block>, f: Factory, env: Env, height: nat, ghost t: nat) returns (st: Status)
      requires Valid() && Known(Contents(), f.key) && f.IsValid() && t < |lanes.nodes| && node == lanes.nodes[t] && |node.data| == capacity
      requires Home(Front(t), node.data, Rear(t + 1), f.key) && 0 < height <= MAX_HEIGHT
      requires |prev| == MAX_HEIGHT && forall h :: 0 <= h < MAX_HEIGHT ==> prev[h] == Owner(lanes.nodes, t, h)
      modifies this, lanes, lanes.nodes
      ensures Valid() && fresh(set n | n in lanes.nodes && n !in old(lanes.nodes))
      ensures (st, MapOf(Contents())) == Insert(old(MapOf(Contents())), f, env)
    {
      hide MapOf;
      hide Owner;
      hide With;
      hide Home;
      hide Insert;
      hide Known;
      hide Sorted;
      hide Less;
      hide Cmp;
      hide HKey;
      hide Flat;
      hide UnrolledSkipList.Valid;
      hide UnrolledSkipList.Parts;
      hide UnrolledSkipList.Front;
      hide UnrolledSkipList.Rear;
      hide UnrolledSkipList.Contents;
      ghost var list, b, n := lanes.nodes, node.data, capacity / 2;
      Room(t);
      Pieces(t);
      HomeHalves(Front(t), b, Rear(t + 1), f.key, n);
      var x := Split(prev, node, height, t);
      WithAt(list, t, x);
      NewNodes(list, t, x);
      Steps(t);
      Steps(t + 1);
      st := InsertHalf(x, node, f, env, t);
    }

    /** The last key of the front half tells where the key goes. */
    method InsertHalf(x: Node<Block>, node: Node<Block>, f: Factory, env: Env, ghost t: nat) returns (st: Status)
      requires Valid() && Known(Contents(), f.key) && f.IsValid()
      requires t + 1 < |lanes.nodes| && x == lanes.nodes[t] && node == lanes.nodes[t + 1]
      requires 0 < |x.data| < capacity && |node.data| < capacity
      requires if Less(x.data[|x.data| - 1].key, f.key) then Home(Front(t + 1), node.data, Rear(t + 2), f.key)
        else Home(Front(t), x.data, Rear(t + 1), f.key)
      modifies this`count, this`bytes, x`data, node`data
      ensures Valid() && (st, MapOf(Contents())) == Insert(old(MapOf(Contents())), f, env)
    {
      hide Home;
      hide Insert;
      hide Known;
      hide Sorted;
      hide Less;
      hide Cmp;
      hide HKey;
      hide UnrolledSkipList.Valid;
      hide UnrolledSkipList.Front;
      hide UnrolledSkipList.Rear;
      var k := x.data[|x.data| - 1].key;
      Compared(k, f.key, t);
      var cmp := Cmp(HKey(k), k, HKey(f.key), f.key);
      if cmp >= 0 {
        st := InsertInto(x, f, env, t);
      } else {
        st := InsertInto(node, f, env, t + 1);
      }
    }

    lemma Room(t: nat)
      requires Valid() && t < |lanes.nodes| && |lanes.nodes[t].data| == capacity
      ensures 0 < capacity / 2 < capacity && Sorted(Contents()) && lanes.nodes[t] in lanes.nodes
    {
    }

    lemma Compared(k: Key, key: Key, t: nat)
      requires Valid() && Known(Contents(), key) && t < |lanes.nodes| && lanes.nodes[t].data != []
      requires k == lanes.nodes[t].data[|lanes.nodes[t].data| - 1].key
      ensures Cmp(HKey(k), k, HKey(key), key) < 0 <==> Less(k, key)
    {
      KnownIn(t, key);
      CmpIsSignExactly(k, key);
      SignLess(k, key);
    }

    /** insertF; height is what getRandomHeight_ answers, nodeMemory whether a node can be allocated. Without a node
        the call can also fail where the map would have had room. */
    method InsertF(f: Factory, env: Env, height: nat, nodeMemory: bool) returns (st: Status)
      requires Valid() && (f.IsValid() ==> Known(Contents(), f.key)) && 0 < height <= MAX_HEIGHT
      modifies this, lanes, lanes.nodes
      ensures Valid() && fresh(set n | n in lanes.nodes && n !in old(lanes.nodes))
      ensures
        || (st, MapOf(Contents())) == Insert(old(MapOf(Contents())), f, env)
        || (!nodeMemory && st == ErrorNoMemory && MapOf(Contents()) == old(MapOf(Contents())))
    {
      hide MapOf;
      hide Owner;
      hide Home;
      hide LowerBound;
      hide Backs;
      hide Lanes.Linked;
      hide Flat;
      hide TotalBytes;
      hide Sorted;
      if !f.IsValid() {
        return ErrorInvalid;
      }
      var prev, node, found, r, t := Locate(f.key, true);
      if node == null {
        if !nodeMemory {
          return ErrorNoMemory;
        }
        st := InsertLast(prev, f, env, height);
        return;
      }
      AtHome(f.key, r, t);
      assert node in lanes.nodes;
      if found || |node.data| < capacity {
        st := InsertInto(node, f, env, t);
        return;
      }
      if !nodeMemory {
        return ErrorNoMemory;
      }
      st := InsertSplit(prev, node, f, env, height, t);
    }

    method InsertLast(prev: seq<Node?<Block>>, f: Factory, env: Env, height: nat) returns (st: Status)
      requires Valid() && f.IsValid() && Target(f.key, |lanes.nodes|, |lanes.nodes|) && 0 < height <= MAX_HEIGHT
      requires |prev| == MAX_HEIGHT && forall h :: 0 <= h < MAX_HEIGHT ==> prev[h] == Owner(lanes.nodes, |lanes.nodes|, h)
      modifies this, lanes, lanes.nodes`next
      ensures fresh(set n | n in lanes.nodes && n !in old(lanes.nodes))
      ensures Valid() && (st, MapOf(Contents())) == Insert(old(MapOf(Contents())), f, env)
    {
      hide Owner;
      hide Lanes.Linked;
      hide LowerBound;
      hide Backs;
      hide Flat;
      hide TotalBytes;
      hide Sorted;
      Absent(f.key);
      if !env.memory {
        return ErrorNoMemory;
      }
      Append(prev, f.Create(env.now), height);
      return Inserted;
    }

    lemma Absent(key: Key)
      requires Valid() && Target(key, |lanes.nodes|, |lanes.nodes|)
      ensures key !in MapOf(Contents())
    {
      hide Flat;
      AllBelow(Parts(), key);
      LowerBoundStored(Contents(), key, |Contents()|);
    }

    // ---------- erase ----------

    /** A node that has lost its last pair leaves all lanes. */
    method RemoveNode(prev: seq<Node?<Block>>, node: Node<Block>, ghost t: nat)
      requires Valid() && t < |lanes.nodes| && node == lanes.nodes[t] && |node.data| == 1 && |prev| == MAX_HEIGHT
      requires forall h :: 0 <= h < MAX_HEIGHT ==> prev[h] == Owner(lanes.nodes, t, h)
      requires Sorted(Front(t) + [] + Rear(t + 1))
      modifies this, lanes, lanes.nodes`next
      ensures Valid() && (forall n :: n in lanes.nodes ==> n in old(lanes.nodes))
      ensures Contents() == old(Front(t) + [] + Rear(t + 1))
    {
      hide Lanes.Linked;
      hide Owner;
      hide With;
      hide Sorted;
      hide TotalBytes;
      hide Flat;
      ghost var bs, y := Parts(), node.data[0];
      Pieces(t);
      BlockBytes(Front(t), node.data, Rear(t + 1));
      BlockBytes(Front(t), [], Rear(t + 1));
      NoBytes();
      SingleBytes(y);
      assert node.data == [y];
      ghost var list := lanes.Remove(t);
      lanes.Detach(prev, node, list, t);
      PartsWithout(list, t, bs);
      count := count - 1;
      bytes := bytes - node.data[0].Bytes();
    }

    lemma NoBytes()
      ensures TotalBytes([]) == 0
    {
    }

    lemma PartsWithout(list: seq<Node<Block>>, t: nat, bs: seq<Block>)
      requires lanes.nodes == list && t < |bs| == |list| + 1
      requires forall i :: 0 <= i < |list| ==> list[i].data == bs[if i < t then i else i + 1]
      ensures Contents() == Flat(bs[..t]) + [] + Flat(bs[t + 1..])
    {
      hide Flat;
      assert Parts() == bs[..t] + bs[t + 1..];
      FlatConcat(bs[..t], bs[t + 1..]);
    }

    /** erase___ */
    method Erase(key: Key) returns (st: Status)
      requires Valid() && Known(Contents(), key) && key != []
      modifies this, lanes, lanes.nodes
      ensures Valid() && (forall n :: n in lanes.nodes ==> n in old(lanes.nodes))
      ensures (st, MapOf(Contents())) == Pairs.Erase(old(MapOf(Contents())), key)
    {
      hide MapOf;
      hide Owner;
      hide Home;
      hide LowerBound;
      hide Backs;
      hide Lanes.Linked;
      hide Flat;
      hide TotalBytes;
      hide Sorted;
      var prev, node, _, r, t := Locate(key, false);
      if node == null {
        Absent(key);
        return SkipDeleted;
      }
      AtHome(key, r, t);
      Pieces(t);
      assert node in lanes.nodes;
      st := EraseFrom(prev, node, key, t);
    }

    method EraseFrom(prev: seq<Node?<Block>>, node: Node<Block>, key: Key, ghost t: nat) returns (st: Status)
      requires Valid() && Known(Contents(), key) && t < |lanes.nodes| && node == lanes.nodes[t] && |prev| == MAX_HEIGHT
      requires forall h :: 0 <= h < MAX_HEIGHT ==> prev[h] == Owner(lanes.nodes, t, h)
      requires Home(Front(t), node.data, Rear(t + 1), key)
      modifies this, lanes, lanes.nodes`next, node`data
      ensures Valid() && (forall n :: n in lanes.nodes ==> n in old(lanes.nodes))
      ensures (st, MapOf(Contents())) == Pairs.Erase(old(MapOf(Contents())), key)
    {
      hide MapOf;
      hide UnrolledSkipList.Front;
      hide UnrolledSkipList.Rear;
      hide Owner;
      hide Home;
      hide LowerBound;
      hide TotalBytes;
      hide Sorted;
      hide UnrolledSkipList.Valid;
      Pieces(t);
      KnownIn(t, key);
      IsSorted();
      var found, b, total, i := BlockErase(node.data, key);
      hide BlockErased;
      BlockErasedWhole(Front(t), node.data, Rear(t + 1), key, i, found, b);
      if !found {
        return SkipDeleted;
      }
      if |b| > 0 {
        Put(node, b, -1, total, t);
      } else {
        assert b == [];
        RemoveNode(prev, node, t);
      }
      return Deleted;
    }

    lemma IsSorted()
      requires Valid()
      ensures Sorted(Contents())
    {
    }

    // ---------- find ----------

    /** find_: an iterator to the lower bound: a node and a place in its block; null is the end. */
    method Find(key: Key, exact: bool) returns (node: Node?<Block>, at: nat, ghost k: nat)
      requires Valid() && Known(Contents(), key)
      ensures LowerBound(Contents(), key, k)
      ensures node == null <==> k == |Contents()| || (exact && Contents()[k].key != key)
      ensures node != null ==> Points(node, at, k)
    {
      hide UnrolledSkipList.Valid;
      hide UnrolledSkipList.Parts;
      hide Lanes.Linked;
      hide LowerBound;
      hide Backs;
      hide Full;
      hide Follow;
      hide LastIdx;
      hide Heights;
      ghost var r := Bound(key);
      node, at := null, 0;
      var cur: Node?<Block>, h := null, MAX_HEIGHT;
      ghost var p := -1;
      while h > 0
        invariant 0 <= h <= MAX_HEIGHT && lanes.Cursor(cur, p, r, h)
        invariant h == 0 ==> node == NodeAt(lanes.nodes, r)
      {
        h := h - 1;
        var equal;
        cur, node, equal, p := WalkFind(cur, h, key, p, r);
        if equal {
          k := AtBack(key, r);
          return node, |node.data| - 1, k;
        }
        Lowest(r);
      }
      if node == null {
        k := PastAll(key);
        return;
      }
      var found;
      found, at, k := FindIn(node, key, r);
      if exact && !found {
        node := null;
      }
    }

    /** The inner loop of find_. */
    method WalkFind(start: Node?<Block>, h: nat, key: Key, ghost q: int, ghost r: nat)
      returns (cur: Node?<Block>, hit: Node?<Block>, equal: bool, ghost p: int)
      requires Valid() && Known(Contents(), key) && Full(Parts()) && LowerBound(Backs(Parts()), key, r) && h < MAX_HEIGHT
      requires lanes.Cursor(start, q, r, h + 1)
      ensures lanes.Cursor(cur, p, r, h + 1) && hit == Follow(lanes.nodes, r, h)
      ensures equal ==> r < |lanes.nodes| && hit == lanes.nodes[r] && hit.data != [] && hit.data[|hit.data| - 1].key == key
    {
      hide UnrolledSkipList.Valid;
      hide UnrolledSkipList.Parts;
      hide Lanes.Linked;
      hide LowerBound;
      hide Backs;
      hide Full;
      hide Follow;
      hide NextIdx;
      hide LastIdx;
      hide Heights;
      Facts();
      cur, hit, equal, p := start, null, false, q;
      var node := lanes.Next(cur, h, p, r);
      while node != null
        invariant lanes.Cursor(cur, p, r, h + 1) && node == Follow(lanes.nodes, p + 1, h) && hit == null && !equal
        decreases r - p
      {
        ghost var i := NextIdx(Heights(lanes.nodes), p + 1, h);
        Reached(p, h);
        var below;
        below, equal := Test(node, key, i, r);
        if !below {
          Stopped(p, i, r, h);
          hit := node;
          return;
        }
        cur, p := node, i;
        node := lanes.Next(cur, h, p, r);
      }
      Ended(p, r, h);
    }

    lemma Lowest(r: nat)
      requires Valid() && r <= |lanes.nodes|
      ensures Follow(lanes.nodes, r, 0) == NodeAt(lanes.nodes, r)
    {
      lanes.Bottom(r);
    }

    lemma InBlock(key: Key, r: nat, at: nat)
      requires Valid() && Target(key, r, r) && r < |lanes.nodes| && LowerBound(lanes.nodes[r].data, key, at) && at < |lanes.nodes[r].data|
      ensures var k := |Front(r)| + at;
        && LowerBound(Contents(), key, k) && k < |Contents()| && Contents()[k] == lanes.nodes[r].data[at]
        && Points(lanes.nodes[r], at, k)
    {
      hide UnrolledSkipList.Parts;
      hide UnrolledSkipList.Valid;
      hide Blocks.Around;
      hide Less;
      hide Flat;
      hide LowerBound;
      hide Home;
      Pieces(r);
      AtHome(key, r, r);
      var a, b, c := Front(r), lanes.nodes[r].data, Rear(r + 1);
      assert Blocks.Around(a, key, c) by {
        HomeBound(a, b, c, key, at);
      }
      BlockBound(a, b, c, key, at);
      assert (a + b + c)[|a| + at] == b[at];
    }

    /** The key is the last of block r. */
    lemma AtBack(key: Key, r: nat) returns (k: nat)
      requires Valid() && Target(key, r, r) && r < |lanes.nodes|
      requires lanes.nodes[r].data != [] && lanes.nodes[r].data[|lanes.nodes[r].data| - 1].key == key
      ensures LowerBound(Contents(), key, k) && k < |Contents()| && Contents()[k].key == key
      ensures Points(lanes.nodes[r], |lanes.nodes[r].data| - 1, k)
    {
      hide Flat;
      hide Less;
      Pieces(r);
      var b := lanes.nodes[r].data;
      LessIrreflexive(key);
      assert LowerBound(b, key, |b| - 1);
      InBlock(key, r, |b| - 1);
      k := |Front(r)| + |b| - 1;
    }

    lemma PastAll(key: Key) returns (k: nat)
      requires Valid() && Target(key, |lanes.nodes|, |lanes.nodes|)
      ensures k == |Contents()| && LowerBound(Contents(), key, k)
    {
      hide Flat;
      AllBelow(Parts(), key);
      k := |Contents()|;
    }

    /** The search inside the node. The block has a key that is not below, so the place found is in it. */
    method FindIn(node: Node<Block>, key: Key, ghost r: nat) returns (found: bool, at: nat, ghost k: nat)
      requires Valid() && Known(Contents(), key) && Target(key, r, r) && r < |lanes.nodes| && node == lanes.nodes[r]
      ensures LowerBound(Contents(), key, k) && k < |Contents()| && found == (Contents()[k].key == key) && Points(node, at, k)
    {
      hide Flat;
      hide Less;
      Pieces(r);
      KnownIn(r, key);
      found, at := BinarySearch(node.data, key, 0);
      InNode(key, r, at);
      hide LowerBound;
      InBlock(key, r, at);
      k := |Front(r)| + at;
    }

    lemma InNode(key: Key, r: nat, at: nat)
      requires Valid() && Target(key, r, r) && r < |lanes.nodes| && LowerBound(lanes.nodes[r].data, key, at)
      ensures at < |lanes.nodes[r].data|
    {
      hide Less;
      var b := lanes.nodes[r].data;
      assert lanes.nodes[r] in lanes.nodes && Backs(Parts())[r] == b[|b| - 1];
    }

    /** getPair___ */
    method GetPair(key: Key) returns (r: Option<Pair>)
      requires Valid() && Known(Contents(), key)
      ensures r == Lookup(MapOf(Contents()), key)
    {
      hide MapOf;
      hide UnrolledSkipList.Front;
      hide LowerBound;
      hide Lanes.Linked;
      var node, at, k := Find(key, true);
      LowerBoundStored(Contents(), key, k);
      if node == null {
        return None;
      }
      Pointed(node, at, k);
      return Some(node.data[at]);
    }

    lemma Pointed(node: Node<Block>, at: nat, k: nat)
      requires Valid() && Points(node, at, k)
      ensures node in lanes.nodes && k < |Contents()| && at < |node.data| && Contents()[k] == node.data[at]
    {
      hide Flat;
      var t :| 0 <= t < |lanes.nodes| && lanes.nodes[t] == node && at < |lanes.nodes[t].data| && k == |Front(t)| + at;
      Pieces(t);
      assert (Front(t) + node.data + Rear(t + 1))[k] == node.data[at];
    }

    // ---------- iteration ----------

    /** operator++ from the beginning to the end. */
    method ReadAll() returns (s: seq<Pair>)
      requires Valid()
      ensures s == Contents()
    {
      hide Flat;
      hide Follow;
      hide LastIdx;
      hide NextIdx;
      hide Heights;
      Facts();
      s := [];
      ghost var t := 0;
      var node := lanes.heads[0];
      AtStart();
      while node != null
        invariant t <= |lanes.nodes| && node == NodeAt(lanes.nodes, t) && s == Front(t)
        decreases |lanes.nodes| - t
      {
        s := ReadBlock(s, node.data);
        Steps(t);
        Onward(t);
        node := node.next[0];
        t := t + 1;
      }
      assert Parts()[..t] == Parts();
    }

    method ReadBlock(before: seq<Pair>, b: Block) returns (s: seq<Pair>)
      ensures s == before + b
    {
      s := before;
      assert b[..0] == [];
      for i := 0 to |b|
        invariant s == before + b[..i]
      {
        s := s + [b[i]];
        assert b[..i + 1] == b[..i] + [b[i]];
      }
      assert b[..|b|] == b;
    }

    lemma AtStart()
      requires Valid()
      ensures |lanes.heads| > 0 && lanes.heads[0] == NodeAt(lanes.nodes, 0) && Front(0) == []
    {
      lanes.Bottom(0);
      assert lanes.Lane(lanes.nodes, 0);
      assert Parts()[..0] == [];
    }

    lemma Onward(t: nat)
      requires Valid() && t < |lanes.nodes|
      ensures |lanes.nodes[t].next| > 0 && lanes.nodes[t].next[0] == NodeAt(lanes.nodes, t + 1)
    {
      hide Follow;
      hide NextIdx;
      hide LastIdx;
      hide Heights;
      lanes.Bottom(t + 1);
      assert lanes.Lane(lanes.nodes, 0) && lanes.nodes[t] in lanes.nodes;
    }

    /** Position k of the contents is place at in the block of the node. */
    ghost predicate Points(node: Node<Block>, at: nat, k: nat)
      reads lanes`nodes, lanes.nodes
    {
      exists t :: 0 <= t < |lanes.nodes| && lanes.nodes[t] == node && at < |lanes.nodes[t].data| && k == |Front(t)| + at
    }
  }

  lemma Rejoined(a: seq<Pair>, b: Block, c: seq<Pair>, n: nat, none: seq<Pair>)
    requires n <= |b| && none == []
    ensures a + b[..n] + (none + b[n..] + c) == a + b + c
  {
    assert b == b[..n] + b[n..];
  }

  lemma InsertedHome(a: seq<Pair>, b: Block, c: seq<Pair>, f: Factory, env: Env, i: nat, st: Status, b': Block)
    requires Sorted(a + b + c) && Home(a, b, c, f.key) && f.IsValid() && BlockInserted(b, f, env, i, st, b')
    ensures Sorted(a + b' + c) && (st, MapOf(a + b' + c)) == Insert(MapOf(a + b + c), f, env)
  {
    hide Sorted;
    hide Home;
    hide Around;
    hide Insert;
    assert LowerBound(b, f.key, i);
    HomeBound(a, b, c, f.key, i);
    hide BlockInserted;
    BlockInsertedWhole(a, b, c, f, env, i, st, b');
  }
}
