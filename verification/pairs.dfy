/** Pairs, the factories that make them, and the map that every memtable
    refines: what insertF and erase___ do to a sorted collection of pairs. */
module Pairs {
  import opened Keys

  const MAX_KEY_SIZE: nat := 1023
  const MAX_VAL_SIZE: nat := 0xFFF_FFFF
  const EXPIRES_TOMBSTONE: nat := 0xFFFF_FFFF
  const MAX_STAMP: nat := 0xFFFF_FFFF_FFFF_FFFF
  const HEADER_SIZE: nat := 20

  datatype Pair = Pair(key: Key, val: seq<Byte>, expires: nat, created: nat) {
    function Bytes(): nat {
      HEADER_SIZE + |key| + |val|
    }

    predicate IsTombstone() {
      expires == EXPIRES_TOMBSTONE || val == []
    }
  }

  /** A request to store something: created == 0 means "now". */
  datatype Factory =
    | Normal(key: Key, val: seq<Byte>, expires: nat, created: nat)
    | Tombstone(key: Key, created: nat)
  {
    predicate IsValid() {
      0 < |key| <= MAX_KEY_SIZE && (Normal? ==> |val| <= MAX_VAL_SIZE)
    }

    function Bytes(): nat {
      HEADER_SIZE + |key| + if Normal? then |val| else 0
    }

    /** Creation time that is stored. */
    function Stamp(now: nat): nat {
      if created != 0 then created * 0x1_0000_0000 else now
    }

    /** Creation time that is compared against the stored pair. */
    function SimulatedStamp(): nat {
      if created != 0 then created * 0x1_0000_0000 else MAX_STAMP
    }

    function Create(now: nat): Pair {
      match this
      case Normal(k, v, e, _) => Pair(k, v, e, Stamp(now))
      case Tombstone(k, _) => Pair(k, [], 0, Stamp(now))
    }

    /** Overwriting an existing pair of the same key in its own memory: a
        tombstone leaves the value bytes and only marks the pair. */
    function CreateHint(prev: Pair, now: nat): Pair {
      match this
      case Normal(_, v, e, _) => Pair(prev.key, v, e, Stamp(now))
      case Tombstone(_, _) => prev.(expires := EXPIRES_TOMBSTONE, created := Stamp(now))
    }
  }

  datatype Status =
    | Inserted
    | Deleted
    | UpdatedInPlace
    | Replaced
    | SkipInserted
    | SkipDeleted
    | ErrorNoMemory
    | ErrorInvalid

  datatype Option<+T> = None | Some(value: T)

  function Lookup(m: map<Key, Pair>, k: Key): Option<Pair> {
    if k in m then Some(m[k]) else None
  }

  /** What the allocator and the clock answer during one call. */
  datatype Env = Env(now: nat, owns: bool, memory: bool)

  predicate Sorted(s: seq<Pair>) {
    forall i, j :: 0 <= i < j < |s| ==> Less(s[i].key, s[j].key)
  }

  function TotalBytes(s: seq<Pair>): nat {
    if s == [] then 0 else TotalBytes(s[..|s| - 1]) + s[|s| - 1].Bytes()
  }

  lemma SortedInjective(s: seq<Pair>, p: Pair, q: Pair)
    requires Sorted(s) && p in s && q in s && p.key == q.key
    ensures p == q
  {
    LessIrreflexive(p.key);
  }

  /** The map a sorted sequence of pairs stands for. */
  ghost function MapOf(s: seq<Pair>): (m: map<Key, Pair>)
    requires Sorted(s)
    ensures forall p :: p in s ==> p.key in m && m[p.key] == p
    ensures forall k :: k in m ==> m[k] in s && m[k].key == k
  {
    if s == [] then map[]
    else
      var n := |s| - 1;
      LastApart(s);
      MapOf(s[..n])[s[n].key := s[n]]
  }

  lemma LastApart(s: seq<Pair>)
    requires Sorted(s) && s != []
    ensures Sorted(s[..|s| - 1])
    ensures forall p :: p in s <==> p in s[..|s| - 1] || p == s[|s| - 1]
    ensures forall p :: p in s[..|s| - 1] ==> p.key != s[|s| - 1].key
  {
    hide Less;
    var n := |s| - 1;
    assert s == s[..n] + [s[n]];
    LessIrreflexive(s[n].key);
  }

  /** The specification of insertF. */
  function Insert(m: map<Key, Pair>, f: Factory, env: Env): (Status, map<Key, Pair>) {
    if !f.IsValid() then
      (ErrorInvalid, m)
    else if f.key !in m then
      if env.memory then (Inserted, m[f.key := f.Create(env.now)]) else (ErrorNoMemory, m)
    else
      var prev := m[f.key];
      if f.SimulatedStamp() < prev.created then
        (SkipInserted, m)
      else if env.owns && prev.Bytes() >= f.Bytes() then
        (UpdatedInPlace, m[f.key := f.CreateHint(prev, env.now)])
      else if env.memory then
        (Replaced, m[f.key := f.Create(env.now)])
      else
        (ErrorNoMemory, m)
  }

  lemma InsertInvalid(m: map<Key, Pair>, f: Factory, env: Env)
    ensures !f.IsValid() ==> Insert(m, f, env) == (ErrorInvalid, m)
  {
  }

  /** p is what f asks for, written into new memory or, in place, over the pair was: the stamp of the request, and
      its value and expiry. A tombstone has neither: a new one is an empty pair, in place it keeps the value bytes. */
  predicate Carries(p: Pair, f: Factory, now: nat, was: Option<Pair>) {
    && p.key == f.key && p.created == (if f.created == 0 then now else f.created * 0x1_0000_0000)
    && (f.Normal? ==> p.val == f.val && p.expires == f.expires)
    && (f.Tombstone? && was.None? ==> p.val == [] && p.expires == 0)
    && (f.Tombstone? && was.Some? ==> p.val == was.value.val && p.expires == EXPIRES_TOMBSTONE)
  }

  /** The pair of the map is later than the request; one without a time is later than all. */
  predicate Outdated(m: map<Key, Pair>, f: Factory) {
    f.key in m && m[f.key].created > if f.created == 0 then MAX_STAMP else f.created * 0x1_0000_0000
  }

  /** The value asked for has room in the memory of the pair, which the allocator owns. */
  predicate Reusable(m: map<Key, Pair>, f: Factory, env: Env) {
    f.key in m && env.owns && (f.Normal? ==> |f.val| <= |m[f.key].val|)
  }

  /** The rule: each answer has its condition, an accepted request is in the map as it was asked for, and everything
      else stays as it was. */
  lemma InsertRule(m: map<Key, Pair>, f: Factory, env: Env)
    requires forall k :: k in m ==> m[k].key == k
    ensures var (st, m') := Insert(m, f, env);
      && (forall k :: k != f.key ==> Lookup(m', k) == Lookup(m, k))
      && (st == ErrorInvalid <==> !(0 < |f.key| <= 1023) || (f.Normal? && |f.val| > 0xFFF_FFFF))
      && (st != ErrorInvalid ==>
            && (st == SkipInserted <==> Outdated(m, f))
            && (st == UpdatedInPlace <==> !Outdated(m, f) && Reusable(m, f, env))
            && (st == ErrorNoMemory <==> !Outdated(m, f) && !Reusable(m, f, env) && !env.memory)
            && (st == Inserted <==> f.key !in m && env.memory)
            && (st == Replaced <==> f.key in m && !Outdated(m, f) && !Reusable(m, f, env) && env.memory))
      && match st
         case Inserted | Replaced => f.key in m' && Carries(m'[f.key], f, env.now, None)
         case UpdatedInPlace => f.key in m' && Carries(m'[f.key], f, env.now, Some(m[f.key]))
         case _ => st in {ErrorInvalid, SkipInserted, ErrorNoMemory} && m' == m
  {
  }

  /** What a request leaves is a tombstone exactly when it is one, or stores nothing, or uses the mark as expiry. */
  lemma TombstoneRule(p: Pair, f: Factory, now: nat, was: Option<Pair>)
    requires Carries(p, f, now, was)
    ensures p.IsTombstone() <==> f.Tombstone? || f.val == [] || f.expires == 0xFFFF_FFFF
  {
  }

  /** The specification of erase___. */
  function Erase(m: map<Key, Pair>, k: Key): (Status, map<Key, Pair>) {
    if k in m then (Deleted, m - {k}) else (SkipDeleted, m)
  }

  lemma EraseRule(m: map<Key, Pair>, k: Key)
    ensures var (st, m') := Erase(m, k);
      && st == (if k in m then Deleted else SkipDeleted)
      && k !in m' && (forall j :: j != k ==> Lookup(m', j) == Lookup(m, j))
  {
  }

  lemma TotalBytesConcat(a: seq<Pair>, b: seq<Pair>)
    ensures TotalBytes(a + b) == TotalBytes(a) + TotalBytes(b)
  {
    if b == [] {
      assert a + b == a;
    } else {
      assert (a + b)[..|a + b| - 1] == a + b[..|b| - 1];
      TotalBytesConcat(a, b[..|b| - 1]);
    }
  }

  /** Position x between the keys of a and those of b. */
  predicate Fits(a: seq<Pair>, k: Key, b: seq<Pair>) {
    && (forall i :: 0 <= i < |a| ==> Less(a[i].key, k))
    && (forall i :: 0 <= i < |b| ==> Less(k, b[i].key))
  }

  lemma SortedSplit(a: seq<Pair>, x: Pair, b: seq<Pair>)
    ensures Sorted(a + [x] + b) <==> Sorted(a + b) && Fits(a, x.key, b)
  {
    hide Less;
    var s, u := a + [x] + b, a + b;
    if Sorted(s) {
      forall i, j | 0 <= i < j < |u| ensures Less(u[i].key, u[j].key) {
        var i', j' := if i < |a| then i else i + 1, if j < |a| then j else j + 1;
        assert u[i] == s[i'] && u[j] == s[j'];
      }
      assert forall i :: 0 <= i < |a| ==> s[i] == a[i];
      assert forall i :: 0 <= i < |b| ==> s[|a| + 1 + i] == b[i];
      assert s[|a|] == x;
    }
    if Sorted(u) && Fits(a, x.key, b) {
      forall i, j | 0 <= i < j < |s| ensures Less(s[i].key, s[j].key) {
        if i != |a| && j != |a| {
          var i', j' := if i < |a| then i else i - 1, if j < |a| then j else j - 1;
          assert s[i] == u[i'] && s[j] == u[j'];
        }
      }
    }
  }

  lemma MapInsert(a: seq<Pair>, x: Pair, b: seq<Pair>)
    requires Sorted(a + b) && Fits(a, x.key, b)
    ensures Sorted(a + [x] + b)
    ensures x.key !in MapOf(a + b)
    ensures MapOf(a + [x] + b) == MapOf(a + b)[x.key := x]
    ensures MapOf(a + b) == MapOf(a + [x] + b) - {x.key}
  {
    hide Less;
    hide MapOf;
    SortedSplit(a, x, b);
    LessIrreflexive(x.key);
    var s, u := a + [x] + b, a + b;
    InsertedMembers(a, x, b);
    assert forall p :: p in u ==> p.key != x.key by {
      assert forall p :: p in u ==> p in a || p in b;
    }
    hide Sorted;
    hide Fits;
    var m, m' := MapOf(u), MapOf(s);
    forall k | k in m' ensures k == x.key || (k in m && m[k] == m'[k]) {
      assert m'[k] in s;
    }
    forall k | k in m ensures k != x.key && k in m' && m'[k] == m[k] {
      assert m[k] in s;
    }
  }

  lemma InsertedMembers(a: seq<Pair>, x: Pair, b: seq<Pair>)
    ensures forall p :: p in a + [x] + b <==> p in a + b || p == x
  {
  }

  lemma MapReplace(a: seq<Pair>, x: Pair, y: Pair, b: seq<Pair>)
    requires Sorted(a + [x] + b) && x.key == y.key
    ensures Sorted(a + [y] + b)
    ensures x.key in MapOf(a + [x] + b) && MapOf(a + [x] + b)[x.key] == x
    ensures MapOf(a + [y] + b) == MapOf(a + [x] + b)[x.key := y]
  {
    SortedSplit(a, x, b);
    MapInsert(a, x, b);
    MapInsert(a, y, b);
  }

  lemma AbsentWhenFits(a: seq<Pair>, k: Key, b: seq<Pair>)
    requires Sorted(a + b) && Fits(a, k, b)
    ensures k !in MapOf(a + b)
  {
    MapInsert(a, Pair(k, [], 0, 0), b);
  }

  /** The first position whose key is not below key. */
  predicate LowerBound(s: seq<Pair>, key: Key, i: nat) {
    && i <= |s|
    && (forall j :: 0 <= j < i ==> Less(s[j].key, key))
    && (forall j :: i <= j < |s| ==> !Less(s[j].key, key))
  }

  lemma {:induction false} LowerBoundExists(s: seq<Pair>, key: Key) returns (i: nat)
    requires Sorted(s)
    ensures LowerBound(s, key, i)
  {
    hide Less;
    if s == [] {
      i := 0;
    } else {
      var n := |s| - 1;
      i := LowerBoundExists(s[..n], key);
      if i == n && Less(s[n].key, key) {
        i := n + 1;
      } else if i < n && Less(s[n].key, key) {
        LessTransitive(s[i].key, s[n].key, key);
      }
    }
  }

  /** A key is stored at its lower bound or nowhere. */
  lemma LowerBoundStored(s: seq<Pair>, key: Key, i: nat)
    requires Sorted(s) && LowerBound(s, key, i)
    ensures key in MapOf(s) <==> i < |s| && s[i].key == key
    ensures i < |s| && s[i].key == key ==> MapOf(s)[key] == s[i]
    ensures key !in MapOf(s) ==> Fits(s[..i], key, s[i..])
  {
    hide Less;
    LessIrreflexive(key);
    if i < |s| && s[i].key == key {
      assert s[i] in s;
    } else {
      forall j | i <= j < |s| ensures Less(key, s[j].key) {
        LessTotal(s[i].key, key);
        if j > i {
          LessTransitive(key, s[i].key, s[j].key);
        }
      }
      assert s == s[..i] + s[i..];
      AbsentWhenFits(s[..i], key, s[i..]);
    }
  }

  lemma SingleBytes(y: Pair)
    ensures TotalBytes([y]) == y.Bytes()
  {
    assert [y][..0] == [];
  }

  lemma InsertedPairs(s: seq<Pair>, r: nat, y: Pair)
    requires Sorted(s) && LowerBound(s, y.key, r) && y.key !in MapOf(s)
    ensures var t := s[..r] + [y] + s[r..];
      Sorted(t) && MapOf(t) == MapOf(s)[y.key := y] && TotalBytes(t) == TotalBytes(s) + y.Bytes()
  {
    hide TotalBytes;
    hide Sorted;
    hide Fits;
    LowerBoundStored(s, y.key, r);
    assert s == s[..r] + s[r..];
    hide LowerBound;
    MapInsert(s[..r], y, s[r..]);
    TotalBytesConcat(s[..r], s[r..]);
    TotalBytesConcat(s[..r], [y]);
    TotalBytesConcat(s[..r] + [y], s[r..]);
    SingleBytes(y);
  }

  lemma SplitBytes(a: seq<Pair>, y: Pair, b: seq<Pair>)
    ensures TotalBytes(a + [y] + b) == TotalBytes(a) + y.Bytes() + TotalBytes(b)
  {
    hide TotalBytes;
    TotalBytesConcat(a, [y]);
    TotalBytesConcat(a + [y], b);
    SingleBytes(y);
  }

  lemma ReplacedPairs(s: seq<Pair>, r: nat, y: Pair)
    requires Sorted(s) && r < |s| && s[r].key == y.key
    ensures var t := s[r := y];
      && Sorted(t) && MapOf(t) == MapOf(s)[y.key := y]
      && s[r].Bytes() <= TotalBytes(s) && TotalBytes(t) == TotalBytes(s) - s[r].Bytes() + y.Bytes()
  {
    hide TotalBytes;
    hide Sorted;
    var a, b := s[..r], s[r + 1..];
    assert s == a + [s[r]] + b && s[r := y] == a + [y] + b;
    MapReplace(a, s[r], y, b);
    SplitBytes(a, y, b);
    SplitBytes(a, s[r], b);
  }

  lemma RemovedPairs(s: seq<Pair>, r: nat)
    requires Sorted(s) && r < |s|
    ensures var t := s[..r] + s[r + 1..];
      && Sorted(t) && MapOf(t) == MapOf(s) - {s[r].key}
      && s[r].Bytes() <= TotalBytes(s) && TotalBytes(t) == TotalBytes(s) - s[r].Bytes()
  {
    hide TotalBytes;
    hide Sorted;
    var a, b := s[..r], s[r + 1..];
    assert s == a + [s[r]] + b;
    SortedSplit(a, s[r], b);
    MapInsert(a, s[r], b);
    TotalBytesConcat(a, b);
    SplitBytes(a, s[r], b);
  }
}
