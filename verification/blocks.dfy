/** Sorted blocks of pairs: the array inside an unrolled node (hm4/pairvector.h), the search in it
    (include/binarysearch.h.cc), and the sequence that a list of blocks spells. */
module Blocks {
  import opened Keys
  import opened Pairs
  import opened HPair

  type Block = seq<Pair>

  // ---------- binary search ----------

  /** HPair::cmp is right about the key and every key of s. */
  predicate Known(s: seq<Pair>, key: Key) { forall i :: 0 <= i < |s| ==> Tellable(s[i].key, key) }

  lemma KnownPart(a: seq<Pair>, b: Block, c: seq<Pair>, key: Key)
    requires Known(a + b + c, key)
    ensures Known(b, key)
  {
    hide Tellable;
    assert forall i :: 0 <= i < |b| ==> b[i] == (a + b + c)[|a| + i];
  }

  lemma Decided(b: Block, i: nat, key: Key)
    requires Sorted(b) && Known(b, key) && i < |b|
    ensures var cmp := Cmp(HKey(b[i].key), b[i].key, HKey(key), key);
      && (cmp < 0 <==> Less(b[i].key, key)) && (cmp == 0 <==> b[i].key == key) && (cmp > 0 <==> Less(key, b[i].key))
      && (cmp < 0 ==> forall j :: 0 <= j <= i ==> Less(b[j].key, key))
      && (cmp >= 0 ==> forall j :: i <= j < |b| ==> !Less(b[j].key, key))
      && (cmp == 0 ==> LowerBound(b, key, i))
  {
    CmpIsSignExactly(b[i].key, key);
    SignLess(b[i].key, key);
    hide Less;
    hide Tellable;
    hide HKey;
    hide Cmp;
    LessIrreflexive(key);
    forall j | 0 <= j < i && Less(b[i].key, key) ensures Less(b[j].key, key) {
      LessTransitive(b[j].key, b[i].key, key);
    }
    forall j | i < j < |b| && !Less(b[i].key, key) ensures !Less(b[j].key, key) {
      if Less(b[j].key, key) {
        LessTransitive(b[i].key, b[j].key, key);
      }
    }
  }

  /** linearSearch: the tail of the binary search. */
  method LinearSearch(b: Block, first: nat, last: nat, key: Key) returns (found: bool, at: nat)
    requires Sorted(b) && Known(b, key) && first <= last <= |b|
    requires forall j :: 0 <= j < first ==> Less(b[j].key, key)
    requires forall j :: last <= j < |b| ==> !Less(b[j].key, key)
    ensures LowerBound(b, key, at) && (found ==> at < |b| && b[at].key == key)
    ensures !found && (last < |b| ==> b[last].key != key) ==> at == |b| || b[at].key != key
  {
    hide Less;
    hide Known;
    hide Cmp;
    hide HKey;
    at := first;
    while at < last
      invariant first <= at <= last
      invariant forall j :: 0 <= j < at ==> Less(b[j].key, key)
    {
      Decided(b, at, key);
      var cmp := Cmp(HKey(b[at].key), b[at].key, HKey(key), key);
      if cmp == 0 {
        return true, at;
      }
      if cmp > 0 {
        return false, at;
      }
      at := at + 1;
    }
    return false, at;
  }

  /** binarySearch: halving while more than minimum positions remain, then one by one. */
  method BinarySearch(b: Block, key: Key, minimum: nat) returns (found: bool, at: nat)
    requires Sorted(b) && Known(b, key)
    ensures LowerBound(b, key, at) && found == (at < |b| && b[at].key == key)
  {
    hide Less;
    hide Known;
    hide Cmp;
    hide HKey;
    var start, end := 0, |b|;
    while start + minimum < end
      invariant start <= end <= |b|
      invariant forall j :: 0 <= j < start ==> Less(b[j].key, key)
      invariant forall j :: end <= j < |b| ==> !Less(b[j].key, key)
      invariant end < |b| ==> b[end].key != key
    {
      var mid := start + (end - start) / 2;
      Decided(b, mid, key);
      var cmp := Cmp(HKey(b[mid].key), b[mid].key, HKey(key), key);
      if cmp < 0 {
        start := mid + 1;
      } else if cmp > 0 {
        assert b[mid].key != key;
        end := mid;
      } else {
        return true, mid;
      }
    }
    found, at := LinearSearch(b, start, end, key);
  }

  /** The prefix test and HPair::cmp place a pair before or behind the lower bound. */
  lemma Placed(s: seq<Pair>, i: nat, r: nat, key: Key)
    requires Sorted(s) && LowerBound(s, key, r) && i < |s| && Tellable(s[i].key, key)
    ensures var k := s[i].key;
      && (HKey(k) < HKey(key) || Cmp(HKey(k), k, HKey(key), key) < 0 <==> i < r)
      && (Cmp(HKey(k), k, HKey(key), key) == 0 <==> k == key) && (k == key ==> i == r)
  {
    hide Tellable;
    hide HKey;
    hide Cmp;
    hide Less;
    CmpIsSignExactly(s[i].key, key);
    SignLess(s[i].key, key);
    LessIrreflexive(key);
    LowerBoundStored(s, key, r);
    assert s[i] in s;
  }

  // ---------- a list of blocks ----------

  function Flat(bs: seq<Block>): seq<Pair> {
    if bs == [] then [] else Flat(bs[..|bs| - 1]) + bs[|bs| - 1]
  }

  lemma {:induction false} FlatConcat(a: seq<Block>, b: seq<Block>)
    ensures Flat(a + b) == Flat(a) + Flat(b)
  {
    if b == [] {
      assert a + b == a;
    } else {
      assert (a + b)[..|a + b| - 1] == a + b[..|b| - 1];
      FlatConcat(a, b[..|b| - 1]);
      assert Flat(a) + (Flat(b[..|b| - 1]) + b[|b| - 1]) == Flat(a) + Flat(b[..|b| - 1]) + b[|b| - 1];
    }
  }

  lemma FlatOne(b: Block)
    ensures Flat([b]) == b
  {
    assert [b][..0] == [];
  }

  lemma FlatAround(a: seq<Block>, b: Block, c: seq<Block>)
    ensures Flat(a + [b] + c) == Flat(a) + b + Flat(c)
  {
    hide Flat;
    FlatConcat(a + [b], c);
    FlatConcat(a, [b]);
    FlatOne(b);
  }

  lemma FlatAt(bs: seq<Block>, t: nat)
    requires t < |bs|
    ensures Flat(bs) == Flat(bs[..t]) + bs[t] + Flat(bs[t + 1..])
  {
    hide Flat;
    CutAt(bs, t);
    FlatAround(bs[..t], bs[t], bs[t + 1..]);
  }

  lemma CutAt(bs: seq<Block>, t: nat)
    requires t < |bs|
    ensures bs == bs[..t] + [bs[t]] + bs[t + 1..]
  {
  }

  /** Everything in front is below the key, nothing behind is. */
  predicate Around(a: seq<Pair>, key: Key, c: seq<Pair>) { Below(a, key) && NotBelow(c, key) }

  predicate Below(a: seq<Pair>, key: Key) { forall i :: 0 <= i < |a| ==> Less(a[i].key, key) }

  predicate NotBelow(c: seq<Pair>, key: Key) { forall i :: 0 <= i < |c| ==> !Less(c[i].key, key) }

  /** The lower bound in the right block is the lower bound in the whole. */
  lemma BlockBound(a: seq<Pair>, b: Block, c: seq<Pair>, key: Key, i: nat)
    requires Around(a, key, c) && LowerBound(b, key, i)
    ensures LowerBound(a + b + c, key, |a| + i)
  {
    hide Less;
    var s := a + b + c;
    forall j | 0 <= j < |a| + i ensures Less(s[j].key, key) {
      assert s[j] == if j < |a| then a[j] else b[j - |a|];
    }
    forall j | |a| + i <= j < |s| ensures !Less(s[j].key, key) {
      assert s[j] == if j < |a| + |b| then b[j - |a|] else c[j - |a| - |b|];
    }
  }

  /** The block b between a and c is the place for the key: nothing is behind it, or its last key is not below the key. */
  predicate Home(a: seq<Pair>, b: Block, c: seq<Pair>, key: Key) {
    b != [] && Around(a, key, c) && (c == [] || !Less(b[|b| - 1].key, key))
  }

  lemma HomeBound(a: seq<Pair>, b: Block, c: seq<Pair>, key: Key, i: nat)
    requires Home(a, b, c, key) && LowerBound(b, key, i)
    ensures Around(a, key, c) && i <= |b| && (i < |b| || c == [])
  {
    hide Less;
    assert i == |b| ==> Less(b[|b| - 1].key, key);
  }

  /** After cutting the home block, the last key of the front part tells which part is the home. */
  lemma HomeHalves(a: seq<Pair>, b: Block, c: seq<Pair>, key: Key, n: nat)
    requires Home(a, b, c, key) && Sorted(a + b + c) && 0 < n < |b|
    ensures if Less(b[n - 1].key, key) then Home(a + b[..n], b[n..], c, key) else Home(a, b[..n], b[n..] + c, key)
  {
    hide Less;
    hide Sorted;
    var d, e := b[..n], b[n..];
    assert b == d + e && d[|d| - 1] == b[n - 1] && e[|e| - 1] == b[|b| - 1];
    if Less(b[n - 1].key, key) {
      BlockSorted(a, b, c);
      FrontBelow(d, e, key);
      assert Below(a + d, key);
    } else {
      assert a + b + c == (a + d) + (e + c);
      BehindLast(a + d, e + c, key);
    }
  }

  lemma BlockSorted(a: seq<Pair>, b: Block, c: seq<Pair>)
    requires Sorted(a + b + c)
    ensures Sorted(b)
  {
    SortedParts(a + b, c);
    SortedParts(a, b);
  }

  lemma FrontBelow(d: seq<Pair>, e: seq<Pair>, key: Key)
    requires Sorted(d + e) && d != [] && Less(d[|d| - 1].key, key)
    ensures Below(d, key)
  {
    hide Less;
    SortedParts(d, e);
    forall j | 0 <= j < |d| ensures Less(d[j].key, key) {
      if j < |d| - 1 {
        LessTransitive(d[j].key, d[|d| - 1].key, key);
      }
    }
  }

  predicate Full(bs: seq<Block>) { forall t :: 0 <= t < |bs| ==> bs[t] != [] }

  /** The last pair of every block. */
  function Backs(bs: seq<Block>): (s: seq<Pair>)
    requires Full(bs)
    ensures |s| == |bs| && forall t :: 0 <= t < |bs| ==> s[t] == bs[t][|bs[t]| - 1]
  {
    seq(|bs|, t requires 0 <= t < |bs| => bs[t][|bs[t]| - 1])
  }

  lemma SortedParts(a: seq<Pair>, b: seq<Pair>)
    requires Sorted(a + b)
    ensures Sorted(a) && Sorted(b) && forall i, j :: 0 <= i < |a| && 0 <= j < |b| ==> Less(a[i].key, b[j].key)
  {
    hide Less;
    var s := a + b;
    assert forall i :: 0 <= i < |a| ==> s[i] == a[i];
    assert forall j :: 0 <= j < |b| ==> s[|a| + j] == b[j];
  }

  lemma {:induction false} BacksSorted(bs: seq<Block>)
    requires Full(bs) && Sorted(Flat(bs))
    ensures Sorted(Backs(bs))
    ensures forall t :: 0 <= t < |bs| ==> Backs(bs)[t] in Flat(bs) && Sorted(bs[t])
  {
    hide Less;
    if bs != [] {
      var n := |bs| - 1;
      var rest, last := bs[..n], bs[n];
      SortedParts(Flat(rest), last);
      BacksSorted(rest);
      var s := Backs(bs);
      assert forall t :: 0 <= t < n ==> s[t] == Backs(rest)[t] && rest[t] == bs[t];
      forall t | 0 <= t < n ensures Less(s[t].key, s[n].key) {
        assert s[t] in Flat(rest);
      }
      forall t | 0 <= t <= n ensures s[t] in Flat(bs) && Sorted(bs[t]) {
        assert Flat(bs) == Flat(rest) + last;
      }
    }
  }

  lemma {:induction false} BelowFlat(bs: seq<Block>, r: nat, key: Key)
    requires Full(bs) && r <= |bs| && (forall t :: 0 <= t < |bs| ==> Sorted(bs[t]))
    requires forall t :: 0 <= t < r ==> Less(Backs(bs)[t].key, key)
    ensures Below(Flat(bs[..r]), key)
    decreases r
  {
    hide Less;
    if r > 0 {
      BelowFlat(bs, r - 1, key);
      var b := bs[r - 1];
      assert bs[..r][..r - 1] == bs[..r - 1];
      assert Flat(bs[..r]) == Flat(bs[..r - 1]) + b;
      assert b[|b| - 1] == Backs(bs)[r - 1];
      forall j | 0 <= j < |b| ensures Less(b[j].key, key) {
        if j < |b| - 1 {
          LessTransitive(b[j].key, b[|b| - 1].key, key);
        }
      }
    }
  }

  lemma AboveFlat(bs: seq<Block>, r: nat, key: Key)
    requires Full(bs) && Sorted(Flat(bs)) && r < |bs| && !Less(Backs(bs)[r].key, key)
    ensures NotBelow(Flat(bs[r + 1..]), key)
  {
    hide Less;
    hide Sorted;
    hide Flat;
    hide NotBelow;
    var a, b, c := Flat(bs[..r]), bs[r], Flat(bs[r + 1..]);
    FlatAt(bs, r);
    assert (a + b)[|a| + |b| - 1] == b[|b| - 1] == Backs(bs)[r];
    BehindLast(a + b, c, key);
  }

  /** Nothing behind a pair that is not below the key is below it. */
  lemma BehindLast(a: seq<Pair>, c: seq<Pair>, key: Key)
    requires Sorted(a + c) && a != [] && !Less(a[|a| - 1].key, key)
    ensures NotBelow(c, key)
  {
    hide Less;
    SortedParts(a, c);
    forall i | 0 <= i < |c| ensures !Less(c[i].key, key) {
      if Less(c[i].key, key) {
        LessTransitive(a[|a| - 1].key, c[i].key, key);
      }
    }
  }

  /** The block whose last key is the first not below key surrounds it; so does the last block when all are below. */
  lemma BlockAround(bs: seq<Block>, key: Key, r: nat, t: nat)
    requires Full(bs) && Sorted(Flat(bs)) && LowerBound(Backs(bs), key, r) && t < |bs| && (t == r || (r == |bs| == t + 1))
    ensures Around(Flat(bs[..t]), key, Flat(bs[t + 1..])) && Sorted(bs[t])
    ensures Home(Flat(bs[..t]), bs[t], Flat(bs[t + 1..]), key)
  {
    hide Less;
    hide Flat;
    BacksSorted(bs);
    BelowFlat(bs, t, key);
    if t == r {
      AboveFlat(bs, r, key);
      assert bs[t][|bs[t]| - 1] == Backs(bs)[t];
    } else {
      FlatNone(bs, t);
    }
  }

  lemma FlatNone(bs: seq<Block>, t: nat)
    requires t + 1 == |bs|
    ensures Flat(bs[t + 1..]) == []
  {
  }

  lemma AllBelow(bs: seq<Block>, key: Key)
    requires Full(bs) && Sorted(Flat(bs)) && LowerBound(Backs(bs), key, |bs|)
    ensures LowerBound(Flat(bs), key, |Flat(bs)|)
  {
    hide Less;
    BacksSorted(bs);
    BelowFlat(bs, |bs|, key);
    assert bs[..|bs|] == bs;
  }

  // ---------- insertF and erase___ of one block ----------

  /** What insertF makes of a block that has room. */
  predicate BlockInserted(b: Block, f: Factory, env: Env, i: nat, st: Status, b': Block) {
    && LowerBound(b, f.key, i)
    && if i < |b| && b[i].key == f.key then
         var prev := b[i];
         if f.SimulatedStamp() < prev.created then st == SkipInserted && b' == b
         else if env.owns && prev.Bytes() >= f.Bytes() then st == UpdatedInPlace && b' == b[i := f.CreateHint(prev, env.now)]
         else if env.memory then st == Replaced && b' == b[i := f.Create(env.now)]
         else st == ErrorNoMemory && b' == b
       else if env.memory then st == Inserted && b' == b[..i] + [f.Create(env.now)] + b[i..]
       else st == ErrorNoMemory && b' == b
  }

  /** insertF of a block; it reports how the counters of the list change. */
  method BlockInsert(b: Block, f: Factory, env: Env) returns (st: Status, b': Block, count: int, bytes: int, ghost i: nat)
    requires Sorted(b) && Known(b, f.key) && f.IsValid()
    ensures BlockInserted(b, f, env, i, st, b')
    ensures |b'| == |b| + count && TotalBytes(b') == TotalBytes(b) + bytes && 0 <= count <= 1
    ensures (exists j :: 0 <= j < |b| && b[j].key == f.key) ==> count == 0
  {
    hide TotalBytes;
    hide Less;
    var found, at := BinarySearch(b, f.key, 0);
    i := at;
    LowerRange(b, f.key, at);
    AtLowerBound(b, f.key, at);
    hide LowerBound;
    count, bytes := 0, 0;
    if found {
      var prev := b[at];
      if f.SimulatedStamp() < prev.created {
        return SkipInserted, b, 0, 0, i;
      }
      if env.owns && prev.Bytes() >= f.Bytes() {
        var y := f.CreateHint(prev, env.now);
        ReplacedBytes(b, at, y);
        return UpdatedInPlace, b[at := y], 0, y.Bytes() - prev.Bytes(), i;
      }
      if !env.memory {
        return ErrorNoMemory, b, 0, 0, i;
      }
      var y := f.Create(env.now);
      ReplacedBytes(b, at, y);
      return Replaced, b[at := y], 0, y.Bytes() - prev.Bytes(), i;
    }
    if !env.memory {
      return ErrorNoMemory, b, 0, 0, i;
    }
    var y := f.Create(env.now);
    AddedBytes(b, at, y);
    return Inserted, b[..at] + [y] + b[at..], 1, y.Bytes(), i;
  }

  lemma AtLowerBound(b: Block, key: Key, i: nat)
    requires Sorted(b) && LowerBound(b, key, i)
    ensures (exists j :: 0 <= j < |b| && b[j].key == key) ==> i < |b| && b[i].key == key
  {
    hide Less;
    LessIrreflexive(key);
    if j :| 0 <= j < |b| && b[j].key == key {
      assert b[j] in b;
      LowerBoundStored(b, key, i);
    }
  }

  lemma ReplacedBytes(b: Block, i: nat, y: Pair)
    requires i < |b|
    ensures TotalBytes(b[i := y]) == TotalBytes(b) - b[i].Bytes() + y.Bytes()
  {
    hide TotalBytes;
    var a, c := b[..i], b[i + 1..];
    assert b == a + [b[i]] + c && b[i := y] == a + [y] + c;
    SplitBytes(a, b[i], c);
    SplitBytes(a, y, c);
  }

  lemma AddedBytes(b: Block, i: nat, y: Pair)
    requires i <= |b|
    ensures TotalBytes(b[..i] + [y] + b[i..]) == TotalBytes(b) + y.Bytes()
  {
    hide TotalBytes;
    var a, c := b[..i], b[i..];
    assert b == a + c;
    SplitBytes(a, y, c);
    TotalBytesConcat(a, c);
  }

  /** A key lies in the block that surrounds it or nowhere. */
  lemma StoredInBlock(a: seq<Pair>, b: Block, c: seq<Pair>, key: Key, i: nat)
    requires Sorted(a + b + c) && Around(a, key, c) && LowerBound(b, key, i) && (i < |b| || c == [])
    ensures LowerBound(a + b + c, key, |a| + i) && i <= |b|
    ensures key in MapOf(a + b + c) <==> i < |b| && b[i].key == key
    ensures i < |b| && b[i].key == key ==> MapOf(a + b + c)[key] == b[i]
  {
    hide Sorted;
    hide Around;
    BlockBound(a, b, c, key, i);
    LowerRange(b, key, i);
    hide LowerBound;
    LowerBoundStored(a + b + c, key, |a| + i);
    assert i < |b| ==> (a + b + c)[|a| + i] == b[i];
  }

  lemma ReplacedInBlock(a: seq<Pair>, b: Block, c: seq<Pair>, i: nat, y: Pair)
    requires Sorted(a + b + c) && i < |b| && b[i].key == y.key
    ensures Sorted(a + b[i := y] + c) && MapOf(a + b[i := y] + c) == MapOf(a + b + c)[y.key := y]
  {
    hide Sorted;
    var s, k := a + b + c, |a| + i;
    assert s[k] == b[i];
    assert a + b[i := y] + c == s[k := y];
    ReplacedPairs(s, k, y);
  }

  lemma Regroup(a: seq<Pair>, b: Block, c: seq<Pair>, i: nat, y: Pair)
    requires i <= |b|
    ensures var s, k := a + b + c, |a| + i; a + (b[..i] + [y] + b[i..]) + c == s[..k] + [y] + s[k..]
  {
    var s, k := a + b + c, |a| + i;
    assert s[..k] == a + b[..i];
    assert s[k..] == b[i..] + c;
  }

  lemma InsertedInBlock(a: seq<Pair>, b: Block, c: seq<Pair>, i: nat, y: Pair)
    requires Sorted(a + b + c) && i <= |b| && LowerBound(a + b + c, y.key, |a| + i) && y.key !in MapOf(a + b + c)
    ensures var b' := b[..i] + [y] + b[i..];
      Sorted(a + b' + c) && MapOf(a + b' + c) == MapOf(a + b + c)[y.key := y]
  {
    hide Sorted;
    hide LowerBound;
    Regroup(a, b, c, i, y);
    InsertedPairs(a + b + c, |a| + i, y);
  }

  lemma BlockBytes(a: seq<Pair>, b: Block, c: seq<Pair>)
    ensures TotalBytes(a + b + c) == TotalBytes(a) + TotalBytes(b) + TotalBytes(c)
  {
    hide TotalBytes;
    TotalBytesConcat(a + b, c);
    TotalBytesConcat(a, b);
  }

  /** Inserting into the block that surrounds the key is inserting into the whole. */
  lemma BlockInsertedWhole(a: seq<Pair>, b: Block, c: seq<Pair>, f: Factory, env: Env, i: nat, st: Status, b': Block)
    requires Sorted(a + b + c) && Around(a, f.key, c) && f.IsValid() && BlockInserted(b, f, env, i, st, b')
    requires i < |b| || c == []
    ensures Sorted(a + b' + c) && (st, MapOf(a + b' + c)) == Insert(MapOf(a + b + c), f, env)
  {
    hide Sorted;
    hide LowerBound;
    hide Around;
    StoredInBlock(a, b, c, f.key, i);
    if i < |b| && b[i].key == f.key {
      BlockReplacedWhole(a, b, c, f, env, i, st, b');
    } else {
      InsertedInBlock(a, b, c, i, f.Create(env.now));
    }
  }

  lemma BlockReplacedWhole(a: seq<Pair>, b: Block, c: seq<Pair>, f: Factory, env: Env, i: nat, st: Status, b': Block)
    requires Sorted(a + b + c) && f.IsValid() && BlockInserted(b, f, env, i, st, b') && i < |b| && b[i].key == f.key
    requires f.key in MapOf(a + b + c) && MapOf(a + b + c)[f.key] == b[i]
    ensures Sorted(a + b' + c) && (st, MapOf(a + b' + c)) == Insert(MapOf(a + b + c), f, env)
  {
    hide Sorted;
    hide LowerBound;
    ReplacedInBlock(a, b, c, i, f.Create(env.now));
    ReplacedInBlock(a, b, c, i, f.CreateHint(b[i], env.now));
  }

  lemma LowerRange(b: Block, key: Key, i: nat)
    requires LowerBound(b, key, i)
    ensures i <= |b|
  {
  }

  // ---------- erase___ of one block ----------

  /** What erase___ makes of a block. */
  predicate BlockErased(b: Block, key: Key, i: nat, found: bool, b': Block) {
    && LowerBound(b, key, i) && i <= |b| && found == (i < |b| && b[i].key == key)
    && b' == if found then b[..i] + b[i + 1..] else b
  }

  method BlockErase(b: Block, key: Key) returns (found: bool, b': Block, bytes: int, ghost i: nat)
    requires Sorted(b) && Known(b, key)
    ensures BlockErased(b, key, i, found, b')
    ensures TotalBytes(b') == TotalBytes(b) + bytes && |b'| == if found then |b| - 1 else |b|
  {
    hide TotalBytes;
    hide Less;
    var at;
    found, at := BinarySearch(b, key, 0);
    i := at;
    b', bytes := b, 0;
    if found {
      SmallerBlock(b, at);
      b', bytes := b[..at] + b[at + 1..], 0 - b[at].Bytes();
    }
  }

  /** Erasing from the home block is erasing from the whole. */
  lemma BlockErasedWhole(a: seq<Pair>, b: Block, c: seq<Pair>, key: Key, i: nat, found: bool, b': Block)
    requires Sorted(a + b + c) && Home(a, b, c, key) && BlockErased(b, key, i, found, b')
    ensures key in MapOf(a + b + c) <==> found
    ensures found ==> Sorted(a + b' + c) && MapOf(a + b' + c) == MapOf(a + b + c) - {key}
  {
    hide Sorted;
    hide Home;
    hide Around;
    hide LowerBound;
    HomeBound(a, b, c, key, i);
    StoredInBlock(a, b, c, key, i);
    if found {
      ErasedInBlock(a, b, c, i, b');
    }
  }

  lemma ErasedInBlock(a: seq<Pair>, b: Block, c: seq<Pair>, i: nat, b': Block)
    requires Sorted(a + b + c) && i < |b| && b' == b[..i] + b[i + 1..]
    ensures Sorted(a + b' + c) && MapOf(a + b' + c) == MapOf(a + b + c) - {b[i].key}
  {
    hide Sorted;
    Cut(a, b, c, i, b');
    RemovedIs(a + b + c, |a| + i, a + b' + c);
  }

  lemma RemovedIs(s: seq<Pair>, k: nat, t: seq<Pair>)
    requires Sorted(s) && k < |s| && t == s[..k] + s[k + 1..]
    ensures Sorted(t) && MapOf(t) == MapOf(s) - {s[k].key}
  {
    hide Sorted;
    RemovedPairs(s, k);
  }

  lemma Cut(a: seq<Pair>, b: Block, c: seq<Pair>, i: nat, b': Block)
    requires i < |b| && b' == b[..i] + b[i + 1..]
    ensures (a + b + c)[|a| + i] == b[i]
    ensures a + b' + c == (a + b + c)[..|a| + i] + (a + b + c)[|a| + i + 1..]
  {
    var s, k := a + b + c, |a| + i;
    assert s[..k] == a + b[..i];
    assert s[k + 1..] == b[i + 1..] + c;
  }

  lemma SmallerBlock(b: Block, i: nat)
    requires i < |b|
    ensures TotalBytes(b[..i] + b[i + 1..]) + b[i].Bytes() == TotalBytes(b)
  {
    hide TotalBytes;
    var a, c := b[..i], b[i + 1..];
    assert b == a + [b[i]] + c;
    SplitBytes(a, b[i], c);
    TotalBytesConcat(a, c);
  }
}
