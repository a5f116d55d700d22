/** The skip list memtable of hm4/skiplist.cc. */
module SkipList {
  import opened Keys
  import opened Pairs
  import opened HPair
  import opened Blocks
  import opened SkipLane
  import opened SkipLanes

  /** What a node holds: the pair, and the first bytes of its key. */
  datatype Entry = Entry(hkey: nat, pair: Pair)

  function EntryOf(p: Pair): Entry { Entry(HKey(p.key), p) }

  class SkipList {
    const lanes: Lanes<Entry>
    var count: nat
    var bytes: nat

    ghost function Contents(): (s: seq<Pair>)
      reads lanes`nodes, lanes.nodes
    {
      var ns := lanes.nodes;
      seq(|ns|, i requires 0 <= i < |ns| reads ns => ns[i].data.pair)
    }

    /** Every node has the prefix of its own key. */
    ghost predicate Keyed()
      reads lanes`nodes, lanes.nodes
    {
      forall n :: n in lanes.nodes ==> n.data == EntryOf(n.data.pair)
    }

    ghost predicate Valid()
      reads this, lanes, lanes.nodes
    {
      && lanes.Linked() && Keyed() && Sorted(Contents())
      && count == |Contents()| && bytes == TotalBytes(Contents())
    }

    constructor ()
      ensures Valid() && Contents() == [] && fresh(lanes)
    {
      lanes := new Lanes<Entry>();
      count, bytes := 0, 0;
    }

    // ---------- search ----------

    lemma IsLinked()
      requires Valid()
      ensures lanes.Linked()
    {
    }

    /** The prefix test and HPair::cmp place a node before or behind the lower bound. */
    lemma Decided(i: nat, r: nat, key: Key)
      requires Valid() && i < |lanes.nodes| && Known(Contents(), key) && LowerBound(Contents(), key, r)
      ensures var e := lanes.nodes[i].data;
        && (e.hkey < HKey(key) || Cmp(e.hkey, e.pair.key, HKey(key), key) < 0 <==> i < r)
        && (Cmp(e.hkey, e.pair.key, HKey(key), key) == 0 <==> e.pair.key == key)
        && (e.pair.key == key ==> i == r)
    {
      hide HKey;
      hide Cmp;
      var n := lanes.nodes[i];
      assert n in lanes.nodes && Contents()[i] == n.data.pair;
      Placed(Contents(), i, r, key);
    }

    /** The inner loop: along lane h to the last node before the key. */
    method Walk(start: Node?<Entry>, h: nat, key: Key, ghost q: int, ghost r: nat)
      returns (cur: Node?<Entry>, found: Node?<Entry>, ghost p: int)
      requires Valid() && Known(Contents(), key) && LowerBound(Contents(), key, r) && h < MAX_HEIGHT && lanes.Cursor(start, q, r, h + 1)
      ensures lanes.Cursor(cur, p, r, h + 1) && p == LastIdx(Heights(lanes.nodes), r, h)
      ensures found != null ==> r < |lanes.nodes| && found == lanes.nodes[r] && found.data.pair.key == key
      ensures found == null && r < |lanes.nodes| && lanes.nodes[r].height > h ==> lanes.nodes[r].data.pair.key != key
    {
      hide SkipList.Valid;
      hide Lanes.Linked;
      hide Cmp;
      hide HKey;
      hide LowerBound;
      IsLinked();
      cur, found, p := start, null, q;
      var node := lanes.Next(cur, h, p, r);
      while node != null
        invariant lanes.Cursor(cur, p, r, h + 1) && node == Follow(lanes.nodes, p + 1, h)
        decreases r - p
      {
        ghost var i := NextIdx(Heights(lanes.nodes), p + 1, h);
        Decided(i, r, key);
        if node.data.hkey >= HKey(key) {
          var cmp := Cmp(node.data.hkey, node.data.pair.key, HKey(key), key);
          if cmp >= 0 {
            if cmp == 0 {
              found := node;
            }
            break;
          }
        }
        cur, p := node, i;
        node := lanes.Next(cur, h, p, r);
      }
      ghost var i := NextIdx(Heights(lanes.nodes), p + 1, h);
      LastUnique(Heights(lanes.nodes), r, h, p);
    }

    lemma Bound(key: Key) returns (r: nat)
      requires Valid()
      ensures LowerBound(Contents(), key, r) && r <= |lanes.nodes|
    {
      r := LowerBoundExists(Contents(), key);
    }

    lemma Reaches(r: nat)
      requires Valid()
      ensures r < |lanes.nodes| ==> lanes.nodes[r].height > 0
    {
      assert r < |lanes.nodes| ==> lanes.nodes[r] in lanes.nodes;
    }

    /** locate_: the node with the key, and for every lane the table to change. */
    method Locate(key: Key, shortcut: bool) returns (prev: seq<Node?<Entry>>, node: Node?<Entry>, ghost r: nat)
      requires Valid() && Known(Contents(), key)
      ensures LowerBound(Contents(), key, r) && r <= |lanes.nodes|
      ensures node == if r < |lanes.nodes| && lanes.nodes[r].data.pair.key == key then lanes.nodes[r] else null
      ensures !shortcut || node == null ==>
        |prev| == MAX_HEIGHT && forall h :: 0 <= h < MAX_HEIGHT ==> prev[h] == Owner(lanes.nodes, r, h)
    {
      hide SkipList.Valid;
      hide LowerBound;
      r := Bound(key);
      prev, node := seq(MAX_HEIGHT, _ => null), null;
      var cur: Node?<Entry>, h := null, MAX_HEIGHT;
      ghost var p := -1;
      while h > 0
        invariant 0 <= h <= MAX_HEIGHT && |prev| == MAX_HEIGHT && lanes.Cursor(cur, p, r, h)
        invariant forall g :: h <= g < MAX_HEIGHT ==> prev[g] == Owner(lanes.nodes, r, g)
        invariant node != null ==> r < |lanes.nodes| && node == lanes.nodes[r] && node.data.pair.key == key
        invariant h == 0 && node == null && r < |lanes.nodes| ==> lanes.nodes[r].data.pair.key != key
      {
        h := h - 1;
        var found;
        cur, found, p := Walk(cur, h, key, p, r);
        if found != null {
          node := found;
          if shortcut {
            return;
          }
        }
        prev := prev[h := cur];
        Reaches(r);
      }
    }

    /** find_: the lower bound (or with exact only the key itself). */
    method Find(key: Key, exact: bool) returns (node: Node?<Entry>, ghost r: nat)
      requires Valid() && Known(Contents(), key)
      ensures LowerBound(Contents(), key, r) && r <= |lanes.nodes|
      ensures node == if r < |lanes.nodes| && (!exact || lanes.nodes[r].data.pair.key == key) then lanes.nodes[r] else null
    {
      hide SkipList.Valid;
      hide Lanes.Linked;
      hide LowerBound;
      hide Follow;
      hide LastIdx;
      hide Heights;
      IsLinked();
      r := Bound(key);
      node := null;
      var cur: Node?<Entry>, h := null, MAX_HEIGHT;
      ghost var p := -1;
      while h > 0
        invariant 0 <= h <= MAX_HEIGHT && lanes.Cursor(cur, p, r, h)
        invariant h < MAX_HEIGHT ==> node == Follow(lanes.nodes, r, h)
        invariant h == 0 && r < |lanes.nodes| ==> lanes.nodes[r].data.pair.key != key
      {
        h := h - 1;
        var found;
        cur, found, p := Walk(cur, h, key, p, r);
        if found != null {
          return found, r;
        }
        FollowOwner(lanes.nodes, r, h);
        node := lanes.Next(cur, h, p, r);
        Reaches(r);
      }
      if exact {
        node := null;
      } else {
        Lowest(r);
      }
    }

    lemma Lowest(r: nat)
      requires Valid() && r <= |lanes.nodes|
      ensures Follow(lanes.nodes, r, 0) == NodeAt(lanes.nodes, r)
    {
      lanes.Bottom(r);
    }

    /** getPair___ */
    method GetPair(key: Key) returns (r: Option<Pair>)
      requires Valid() && Known(Contents(), key)
      ensures r == Lookup(MapOf(Contents()), key)
    {
      var node, i := Find(key, true);
      LowerBoundStored(Contents(), key, i);
      return if node == null then None else Some(node.data.pair);
    }

    // ---------- insert ----------

    /** A new node of any height at the lower bound. */
    method InsertNew(prev: seq<Node?<Entry>>, y: Pair, height: nat, ghost r: nat)
      requires Valid() && LowerBound(Contents(), y.key, r) && y.key !in MapOf(Contents())
      requires 0 < height <= MAX_HEIGHT && r <= |lanes.nodes| && |prev| == MAX_HEIGHT
      requires forall h :: 0 <= h < MAX_HEIGHT ==> prev[h] == Owner(lanes.nodes, r, h)
      modifies this, lanes, lanes.nodes`next
      ensures fresh(set n | n in lanes.nodes && n !in old(lanes.nodes))
      ensures Valid() && MapOf(Contents()) == old(MapOf(Contents()))[y.key := y]
    {
      hide MapOf;
      hide Owner;
      hide With;
      hide Sorted;
      hide LowerBound;
      hide TotalBytes;
      hide HKey;
      ghost var s := Contents();
      ghost var list := lanes.nodes;
      var x := new Node<Entry>(height, EntryOf(y));
      lanes.Attach(prev, x, r);
      ContentsWith(list, r, x, s);
      InsertedPairs(s, r, y);
      NewNodes(list, r, x);
      hide Lanes.Linked;
      count := count + 1;
      bytes := bytes + y.Bytes();
    }

    lemma NewNodes(list: seq<Node<Entry>>, r: nat, x: Node<Entry>)
      requires r <= |list| && lanes.nodes == With(list, r, x)
      ensures forall n :: n in lanes.nodes ==> n in list || n == x
    {
      WithMembers(list, r, x);
    }

    lemma ContentsWith(list: seq<Node<Entry>>, r: nat, x: Node<Entry>, s: seq<Pair>)
      requires r <= |list| && lanes.nodes == With(list, r, x) && |s| == |list| && forall i :: 0 <= i < |list| ==> s[i] == list[i].data.pair
      ensures Contents() == s[..r] + [x.data.pair] + s[r..]
    {
      WithAt(list, r, x);
    }

    /** The pair of a node gives way to another of the same key. */
    method SetData(node: Node<Entry>, y: Pair, ghost r: nat)
      requires Valid() && r < |lanes.nodes| && node == lanes.nodes[r] && y.key == node.data.pair.key
      modifies this`bytes, node`data
      ensures Valid() && MapOf(Contents()) == old(MapOf(Contents()))[y.key := y]
    {
      hide MapOf;
      hide Sorted;
      hide TotalBytes;
      hide HKey;
      ghost var s := Contents();
      assert node in lanes.nodes;
      ReplacedPairs(s, r, y);
      bytes := bytes - node.data.pair.Bytes() + y.Bytes();
      Assign(node, y, r);
    }

    method Assign(node: Node<Entry>, y: Pair, ghost r: nat)
      requires lanes.Linked() && Keyed() && r < |lanes.nodes| && node == lanes.nodes[r] && y.key == node.data.pair.key
      modifies node`data
      ensures lanes.Linked() && Keyed() && Contents() == old(Contents())[r := y]
    {
      hide Follow;
      hide HKey;
      assert node in lanes.nodes;
      node.data := EntryOf(y);
      forall h | 0 <= h < MAX_HEIGHT ensures lanes.Lane(lanes.nodes, h) {
        assert old(lanes.Lane(lanes.nodes, h));
      }
    }

    /** insertF; height is what getRandomHeight_ answers. */
    method InsertF(f: Factory, env: Env, height: nat) returns (st: Status)
      requires Valid() && (f.IsValid() ==> Known(Contents(), f.key)) && 0 < height <= MAX_HEIGHT
      modifies this, lanes, lanes.nodes
      ensures Valid() && fresh(set n | n in lanes.nodes && n !in old(lanes.nodes))
      ensures (st, MapOf(Contents())) == Insert(old(MapOf(Contents())), f, env)
    {
      hide MapOf;
      hide Lanes.Linked;
      hide Sorted;
      hide LowerBound;
      hide TotalBytes;
      if !f.IsValid() {
        return ErrorInvalid;
      }
      var prev, node, r := Locate(f.key, true);
      LowerBoundStored(Contents(), f.key, r);
      if node != null {
        st := Update(node, f, env, r);
        return;
      }
      if !env.memory {
        return ErrorNoMemory;
      }
      InsertNew(prev, f.Create(env.now), height, r);
      return Inserted;
    }

    method Update(node: Node<Entry>, f: Factory, env: Env, ghost r: nat) returns (st: Status)
      requires Valid() && f.IsValid() && r < |lanes.nodes| && node == lanes.nodes[r] && node.data.pair.key == f.key
      requires f.key in MapOf(Contents()) && MapOf(Contents())[f.key] == node.data.pair
      modifies this, lanes.nodes
      ensures Valid() && (st, MapOf(Contents())) == Insert(old(MapOf(Contents())), f, env)
    {
      hide Lanes.Linked;
      hide Sorted;
      hide TotalBytes;
      var prev := node.data.pair;
      assert node in lanes.nodes;
      if f.SimulatedStamp() < prev.created {
        return SkipInserted;
      }
      if env.owns && prev.Bytes() >= f.Bytes() {
        SetData(node, f.CreateHint(prev, env.now), r);
        return UpdatedInPlace;
      }
      if !env.memory {
        return ErrorNoMemory;
      }
      SetData(node, f.Create(env.now), r);
      return Replaced;
    }

    // ---------- erase ----------

    /** erase___ */
    method Erase(key: Key) returns (st: Status)
      requires Valid() && Known(Contents(), key) && key != []
      modifies this, lanes, lanes.nodes`next
      ensures Valid() && (forall n :: n in lanes.nodes ==> n in old(lanes.nodes))
      ensures (st, MapOf(Contents())) == Pairs.Erase(old(MapOf(Contents())), key)
    {
      hide Lanes.Linked;
      hide Owner;
      hide Sorted;
      hide LowerBound;
      hide TotalBytes;
      var prev, node, r := Locate(key, false);
      LowerBoundStored(Contents(), key, r);
      if node == null {
        return SkipDeleted;
      }
      RemoveNode(prev, node, r);
      return Deleted;
    }

    method RemoveNode(prev: seq<Node?<Entry>>, node: Node<Entry>, ghost r: nat)
      requires Valid() && r < |lanes.nodes| && node == lanes.nodes[r] && |prev| == MAX_HEIGHT
      requires forall h :: 0 <= h < MAX_HEIGHT ==> prev[h] == Owner(lanes.nodes, r, h)
      modifies this, lanes, lanes.nodes`next
      ensures Valid() && (forall n :: n in lanes.nodes ==> n in old(lanes.nodes))
      ensures MapOf(Contents()) == old(MapOf(Contents())) - {old(node.data.pair.key)}
    {
      hide MapOf;
      hide Lanes.Linked;
      hide Owner;
      hide With;
      hide Sorted;
      hide TotalBytes;
      hide HKey;
      ghost var s := Contents();
      ghost var list := lanes.Remove(r);
      RemovedPairs(s, r);
      lanes.Detach(prev, node, list, r);
      ContentsWithout(list, r, s);
      hide SkipList.Contents;
      count := count - 1;
      bytes := bytes - node.data.pair.Bytes();
    }

    lemma ContentsWithout(list: seq<Node<Entry>>, r: nat, s: seq<Pair>)
      requires lanes.nodes == list && r < |s| == |list| + 1
      requires forall i :: 0 <= i < |list| ==> list[i].data.pair == s[if i < r then i else i + 1]
      ensures Contents() == s[..r] + s[r + 1..]
    {
    }
  }
}
