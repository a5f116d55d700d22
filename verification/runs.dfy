/** Whole runs of insertions and erasures: each memtable ends with the map that the plain specification gives. */
module Runs {
  import opened Keys
  import opened Pairs
  import opened HPair
  import opened Blocks
  import opened SkipLanes
  import opened AvlList
  import opened SkipList
  import opened UnrolledSkipList

  datatype Op =
    | Put(f: Factory, env: Env, height: nat, nodeMemory: bool)
    | Drop(key: Key)
  {
    predicate Fits() {
      if Put? then 0 < height <= MAX_HEIGHT else key != []
    }

    function Target(): Key { if Put? then f.key else key }
  }

  /** One operation on the map. */
  function Apply(m: map<Key, Pair>, op: Op): map<Key, Pair> {
    match op
    case Put(f, env, _, _) => Insert(m, f, env).1
    case Drop(k) => Pairs.Erase(m, k).1
  }

  function Replay(m: map<Key, Pair>, ops: seq<Op>): map<Key, Pair> {
    if ops == [] then m else Apply(Replay(m, ops[..|ops| - 1]), ops[|ops| - 1])
  }

  lemma ReplayNext(m: map<Key, Pair>, ops: seq<Op>, n: nat)
    requires n < |ops|
    ensures Replay(m, ops[..n + 1]) == Apply(Replay(m, ops[..n]), ops[n])
  {
    assert ops[..n + 1][..n] == ops[..n];
  }

  /** The operations that were carried out. */
  function Taken(ops: seq<Op>, done: seq<bool>): (r: seq<Op>)
    requires |done| == |ops|
    ensures forall op :: op in r ==> op in ops
    ensures (forall i :: 0 <= i < |ops| ==> done[i]) ==> r == ops
  {
    if ops == [] then [] else
      var n := |ops| - 1;
      assert ops == ops[..n] + [ops[n]];
      Taken(ops[..n], done[..n]) + if done[n] then [ops[n]] else []
  }

  /** Operations that the prefixes of the keys do not confuse. */
  predicate Clear(ops: seq<Op>) {
    && (forall op :: op in ops ==> op.Fits())
    && forall a, b :: a in ops && b in ops ==> Tellable(a.Target(), b.Target())
  }

  lemma {:induction false} ReplayKeys(ops: seq<Op>, k: Key)
    requires k in Replay(map[], ops)
    ensures exists op :: op in ops && op.Target() == k
  {
    var n := |ops| - 1;
    if k in Replay(map[], ops[..n]) {
      ReplayKeys(ops[..n], k);
      var op :| op in ops[..n] && op.Target() == k;
      assert op in ops;
    } else {
      assert ops[n] in ops && ops[n].Target() == k;
    }
  }

  /** Whatever part of a clear run has led to s, the comparison is right about s and the next operation. */
  lemma KnownNext(ops: seq<Op>, past: seq<Op>, op: Op, s: seq<Pair>)
    requires Clear(ops) && op in ops && (forall o :: o in past ==> o in ops)
    requires Sorted(s) && MapOf(s) == Replay(map[], past)
    ensures Known(s, op.Target())
  {
    hide Tellable;
    hide Sorted;
    hide Replay;
    forall i | 0 <= i < |s| ensures Tellable(s[i].key, op.Target()) {
      assert s[i] in s;
      ReplayKeys(past, s[i].key);
    }
  }

  /** Any run on an AVL memtable. */
  method RunAvl(ops: seq<Op>) returns (list: AVLList)
    ensures list.Valid() && MapOf(list.Contents()) == Replay(map[], ops)
  {
    hide AVLList.Valid;
    list := new AVLList();
    EmptyStart(list.Contents());
    for n := 0 to |ops|
      invariant list.Valid() && fresh(list) && fresh(list.cells.Keys) && Sorted(list.Contents())
      invariant MapOf(list.Contents()) == Replay(map[], ops[..n])
    {
      ReplayNext(map[], ops, n);
      StepAvl(list, ops[n]);
    }
    assert ops[..|ops|] == ops;
  }

  lemma EmptyStart(s: seq<Pair>)
    requires s == []
    ensures Sorted(s) && MapOf(s) == map[]
  {
  }

  method StepAvl(list: AVLList, op: Op)
    requires list.Valid()
    modifies list, list.cells.Keys
    ensures list.Valid() && fresh(list.cells.Keys - old(list.cells.Keys)) && Sorted(list.Contents())
    ensures MapOf(list.Contents()) == Apply(old(MapOf(list.Contents())), op)
  {
    match op {
      case Put(f, env, _, _) => var _ := list.InsertF(f, env);
      case Drop(k) => var _ := list.Erase(k);
    }
  }

  /** Any run on a skip list, with any heights. */
  method RunSkip(ops: seq<Op>) returns (list: SkipList)
    requires Clear(ops)
    ensures list.Valid() && MapOf(list.Contents()) == Replay(map[], ops)
  {
    hide SkipList.Valid;
    hide Clear;
    hide Known;
    list := new SkipList();
    EmptyStart(list.Contents());
    for n := 0 to |ops|
      invariant list.Valid() && fresh(list) && fresh(list.lanes) && fresh(set x | x in list.lanes.nodes) && Sorted(list.Contents())
      invariant MapOf(list.Contents()) == Replay(map[], ops[..n])
    {
      ReplayNext(map[], ops, n);
      KnownNext(ops, ops[..n], ops[n], list.Contents());
      FitsNext(ops, n);
      StepSkip(list, ops[n]);
    }
    assert ops[..|ops|] == ops;
  }

  lemma FitsNext(ops: seq<Op>, n: nat)
    requires Clear(ops) && n < |ops|
    ensures ops[n].Fits()
  {
    assert ops[n] in ops;
  }

  method StepSkip(list: SkipList, op: Op)
    requires list.Valid() && op.Fits() && Known(list.Contents(), op.Target())
    modifies list, list.lanes, list.lanes.nodes
    ensures list.Valid() && fresh(set n | n in list.lanes.nodes && n !in old(list.lanes.nodes)) && Sorted(list.Contents())
    ensures MapOf(list.Contents()) == Apply(old(MapOf(list.Contents())), op)
  {
    match op {
      case Put(f, env, height, _) => var _ := list.InsertF(f, env, height);
      case Drop(k) => var _ := list.Erase(k);
    }
  }

  /** Any run on an unrolled skip list: done says which operations were carried out, and only insertions for which
      no node could be allocated were not. */
  method RunUnrolled(ops: seq<Op>, capacity: nat) returns (list: UnrolledSkipList, done: seq<bool>)
    requires capacity >= 2 && Clear(ops)
    ensures |done| == |ops| && forall i :: 0 <= i < |ops| && !done[i] ==> ops[i].Put? && !ops[i].nodeMemory
    ensures list.Valid() && MapOf(list.Contents()) == Replay(map[], Taken(ops, done))
  {
    hide UnrolledSkipList.Valid;
    hide Clear;
    hide Known;
    hide Sorted;
    hide Replay;
    hide Apply;
    hide Taken;
    list := new UnrolledSkipList(capacity);
    TakenNone();
    done := [];
    EmptyStart(list.Contents());
    for n := 0 to |ops|
      invariant list.Valid() && fresh(list) && fresh(list.lanes) && fresh(set x | x in list.lanes.nodes) && Sorted(list.Contents())
      invariant |done| == n && forall i :: 0 <= i < n && !done[i] ==> ops[i].Put? && !ops[i].nodeMemory
      invariant MapOf(list.Contents()) == Replay(map[], Taken(ops[..n], done))
    {
      KnownNext(ops, Taken(ops[..n], done), ops[n], list.Contents());
      FitsNext(ops, n);
      var ok := StepUnrolled(list, ops[n]);
      TakenNext(ops, n, done, ok);
      done := done + [ok];
    }
    assert ops[..|ops|] == ops;
  }

  lemma TakenNone()
    ensures Taken([], []) == [] && Replay(map[], []) == map[]
  {
  }

  lemma TakenNext(ops: seq<Op>, n: nat, done: seq<bool>, ok: bool)
    requires n < |ops| && |done| == n
    ensures var past := Taken(ops[..n], done);
      Replay(map[], Taken(ops[..n + 1], done + [ok])) == if ok then Apply(Replay(map[], past), ops[n]) else Replay(map[], past)
  {
    hide Apply;
    hide Taken;
    hide Replay;
    TakenStep(ops, n, done, ok);
    ReplayStep(map[], Taken(ops[..n], done), ops[n]);
  }

  lemma TakenStep(ops: seq<Op>, n: nat, done: seq<bool>, ok: bool)
    requires n < |ops| && |done| == n
    ensures var past := Taken(ops[..n], done);
      Taken(ops[..n + 1], done + [ok]) == if ok then past + [ops[n]] else past
  {
    var now := ops[..n + 1];
    assert now[..n] == ops[..n] && now[n] == ops[n] && (done + [ok])[..n] == done;
  }

  lemma ReplayStep(m: map<Key, Pair>, ops: seq<Op>, op: Op)
    ensures Replay(m, ops + [op]) == Apply(Replay(m, ops), op)
  {
    assert (ops + [op])[..|ops|] == ops;
  }

  lemma Unchanged(m: map<Key, Pair>, f: Factory, env: Env)
    ensures Insert(m, f, env).0 == ErrorNoMemory ==> Insert(m, f, env).1 == m
  {
  }

  method StepUnrolled(list: UnrolledSkipList, op: Op) returns (ok: bool)
    requires list.Valid() && op.Fits() && Known(list.Contents(), op.Target())
    modifies list, list.lanes, list.lanes.nodes
    ensures list.Valid() && fresh(set n | n in list.lanes.nodes && n !in old(list.lanes.nodes)) && Sorted(list.Contents())
    ensures ok || (op.Put? && !op.nodeMemory)
    ensures MapOf(list.Contents()) == if ok then Apply(old(MapOf(list.Contents())), op) else old(MapOf(list.Contents()))
  {
    hide UnrolledSkipList.Valid;
    hide Known;
    hide Insert;
    hide Sorted;
    list.IsSorted();
    ok := true;
    match op {
      case Put(f, env, height, nodeMemory) =>
        Unchanged(MapOf(list.Contents()), f, env);
        var st := list.InsertF(f, env, height, nodeMemory);
        ok := nodeMemory || st != ErrorNoMemory;
      case Drop(k) => var _ := list.Erase(k);
    }
    list.IsSorted();
  }
}
