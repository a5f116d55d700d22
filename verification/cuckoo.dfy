/** The cuckoo filter: insertion that evicts fingerprints in place, rolled back when it fails. */
module Cuckoo {
  import opened Bits
  import opened Keys

  /** hashAltIndex for a fingerprint whose hash is h. */
  function Partner(i: nat, h: nat, size: nat): (j: nat)
    requires size > 0
    ensures j < size
  {
    Xor(i, h) % size
  }

  ghost predicate PowerOfTwo(size: nat) {
    exists k :: Pow2(k) == size
  }

  /** Reduction modulo a power of two commutes with exclusive or. */
  lemma XorMod(a: nat, b: nat, k: nat)
    ensures Xor(a, b) % Pow2(k) == Xor(a % Pow2(k), b % Pow2(k))
  {
    hide Xor;
    hide Pow2;
    var m := Pow2(k);
    var a1, a0, b1, b0 := a / m, a % m, b / m, b % m;
    assert a == m * a1 + a0 && b == m * b1 + b0;
    XorSplit(a1, b1, a0, b0, k);
    DivMod(Xor(a1, b1), Xor(a0, b0), m);
  }

  lemma ModSmall(i: nat, m: nat)
    requires i < m
    ensures i % m == i
  {
  }

  lemma PartnerBack(i: nat, h: nat, k: nat)
    requires i < Pow2(k)
    ensures Partner(Partner(i, h, Pow2(k)), h, Pow2(k)) == i
  {
    hide Xor;
    hide Pow2;
    var m := Pow2(k);
    var x := Xor(i, h);
    XorMod(x % m, h, k);
    XorMod(x, h, k);
    ModSmall(x % m, m);
    XorCancel(i, h);
    ModSmall(i, m);
  }

  /** The greatest power of two up to n. */
  lemma Bracket(n: nat) returns (k: nat)
    requires n > 0
    ensures Pow2(k) <= n < 2 * Pow2(k)
  {
    k := 0;
    while 2 * Pow2(k) <= n
      invariant Pow2(k) <= n
      decreases n - Pow2(k)
    {
      k := k + 1;
    }
  }

  /** Every bucket is the partner of its partner exactly for the sizes that are powers of two. */
  lemma InvolutionIffPowerOfTwo(size: nat)
    requires size > 0
    ensures PowerOfTwo(size) <==> forall i: nat, h: nat :: i < size ==> Partner(Partner(i, h, size), h, size) == i
  {
    if PowerOfTwo(size) {
      var k :| Pow2(k) == size;
      forall i: nat, h: nat | i < size ensures Partner(Partner(i, h, size), h, size) == i {
        PartnerBack(i, h, k);
      }
    } else {
      var k := Bracket(size);
      hide Partner;
      LostPartner(size, k);
    }
  }

  lemma LostPartner(size: nat, k: nat)
    requires Pow2(k) < size < 2 * Pow2(k)
    ensures Partner(Partner(size - Pow2(k), Pow2(k), size), Pow2(k), size) != size - Pow2(k)
  {
    var m := Pow2(k);
    AddTop(size - m, k);
    AddTop(0, k);
    hide Xor;
    hide Pow2;
    ModSmall(m, size);
    ModSelf(size);
  }

  lemma ModSelf(m: nat)
    requires m > 0
    ensures m % m == 0
  {
    DivMod(1, 0, m);
  }

  lemma AddTop(i: nat, k: nat)
    requires i < Pow2(k)
    ensures Xor(i, Pow2(k)) == i + Pow2(k)
  {
    XorSplit(0, 1, i, 0, k);
    XorZero(i);
    assert Xor(0, 1) == 1;
  }

  lemma {:induction false} XorZero(a: nat)
    ensures Xor(a, 0) == a
  {
    if a > 0 {
      XorZero(a / 2);
    }
  }

  const MAX_KICKS: nat := 256

  /** One eviction: the fingerprint that was in the slot. */
  datatype RollBack = RollBack(index: nat, fp: nat, slot: nat) {
    predicate At(i: nat, s: nat) { index == i && slot == s }
  }

  /** What a slot that now holds value held before the logged evictions. */
  function Before(log: seq<RollBack>, i: nat, s: nat, value: nat): nat {
    if log == [] then value
    else
      var last := log[|log| - 1];
      Before(log[..|log| - 1], i, s, if last.At(i, s) then last.fp else value)
  }

  function One(b: bool): nat { if b then 1 else 0 }

  lemma SizeChange<T>(c: set<T>, d: set<T>, p: T, was: bool, becomes: bool)
    requires (was <==> p in c) && (becomes <==> p in d) && forall x :: x != p ==> (x in c <==> x in d)
    ensures |d| + One(was) == |c| + One(becomes)
  {
    var e := c - {p};
    assert c == if was then e + {p} else e;
    assert d == if becomes then e + {p} else e;
  }

  class CuckooFilter {
    const size: nat
    const slots: nat
    const width: nat             // fingerprints are below width: 2^8, 2^16 or 2^32
    const hash: Key -> nat       // murmur_hash64a of a key
    const mix: nat -> nat        // murmur_hash64a of a fingerprint
    const rand: (nat, nat) -> nat
    const table: array2<nat>

    ghost predicate Valid() {
      size > 0 && slots > 0 && width > 1 && table.Length0 == size && table.Length1 == slots
    }

    constructor (size: nat, slots: nat, width: nat, hash: Key -> nat, mix: nat -> nat, rand: (nat, nat) -> nat)
      requires size > 0 && slots > 0 && width > 1
      ensures Valid() && fresh(table) && this.size == size && this.width == width && this.hash == hash && this.mix == mix
      ensures this.slots == slots && forall i, s :: 0 <= i < size && 0 <= s < slots ==> table[i, s] == 0
    {
      this.size, this.slots, this.width := size, slots, width;
      this.hash, this.mix, this.rand := hash, mix, rand;
      table := new nat[size, slots]((i, s) => 0);
    }

    function Alt(i: nat, fp: nat): (j: nat)
      requires size > 0
      ensures j < size
    {
      Partner(i, mix(fp), size)
    }

    /** createFP__: never zero, which marks an empty slot. */
    function Fingerprint(h: nat): (fp: nat)
      requires width > 1
      ensures 0 < fp < width
    {
      var fp := h % width;
      if fp != 0 then fp else 1
    }

    ghost predicate In(i: nat, q: nat)
      requires Valid() && i < size
      reads table
    {
      exists s :: 0 <= s < slots && table[i, s] == q
    }

    ghost predicate Present(i: nat, q: nat)
      requires Valid() && i < size
      reads table
    {
      In(i, q) || In(Alt(i, q), q)
    }

    /** What lookup decides for a key. */
    ghost predicate Found(k: Key)
      requires Valid()
      reads table
    {
      Present(hash(k) % size, Fingerprint(hash(k)))
    }

    /** Present, or the fingerprint in hand on its way to bucket index. */
    ghost predicate Safe(fp: nat, index: nat, i: nat, q: nat)
      requires Valid() && i < size
      reads table
    {
      Present(i, q) || (q == fp && (i == index || Alt(i, q) == index))
    }

    method TryFind(fp: nat, i: nat) returns (ok: bool)
      requires Valid() && i < size
      ensures ok == In(i, fp)
    {
      for s := 0 to slots
        invariant forall j :: 0 <= j < s ==> table[i, j] != fp
      {
        if table[i, s] == fp {
          return true;
        }
      }
      return false;
    }

    method Lookup(k: Key) returns (ok: bool)
      requires Valid()
      ensures ok == Found(k)
    {
      var h := hash(k);
      var fp := Fingerprint(h);
      ok := TryFind(fp, h % size);
      if !ok {
        ok := TryFind(fp, Alt(h % size, fp));
      }
    }

    // ---------- how often a value is in the table ----------

    ghost function Cells(q: nat): set<(nat, nat)>
      requires Valid()
      reads table
    {
      set i: nat, s: nat | i < size && s < slots && table[i, s] == q :: (i, s)
    }

    /** The number of slots with value q. */
    ghost function Copies(q: nat): nat
      requires Valid()
      reads table
    {
      |Cells(q)|
    }

    method Write(i: nat, s: nat, v: nat)
      requires Valid() && i < size && s < slots
      modifies table
      ensures forall j, r :: 0 <= j < size && 0 <= r < slots ==> table[j, r] == if j == i && r == s then v else old(table[j, r])
      ensures forall q: nat :: Copies(q) + One(q == old(table[i, s])) == old(Copies(q)) + One(q == v)
    {
      ghost var before := table[i, s];
      table[i, s] := v;
      forall q: nat ensures Copies(q) + One(q == before) == old(Copies(q)) + One(q == v) {
        SizeChange(old(Cells(q)), Cells(q), (i, s), q == before, q == v);
      }
    }

    // ---------- insert ----------

    ghost predicate Full(i: nat)
      requires Valid() && i < size
      reads table
    {
      forall s :: 0 <= s < slots ==> table[i, s] != 0
    }

    /** The fingerprint is met before any empty slot. */
    ghost predicate Settled(i: nat, q: nat)
      requires Valid() && i < size
      reads table
    {
      exists s :: 0 <= s < slots && table[i, s] == q && forall r :: 0 <= r < s ==> table[i, r] != 0
    }

    method TryInsert(fp: nat, i: nat, initial: bool) returns (ok: bool)
      requires Valid() && i < size && fp != 0
      modifies table
      ensures !ok ==> forall j, s :: 0 <= j < size && 0 <= s < slots ==> table[j, s] == old(table[j, s])
      ensures ok ==> In(i, fp)
      ensures ok <==> !old(Full(i)) || (initial && old(In(i, fp)))
      ensures var added := ok && !(initial && old(Settled(i, fp)));
        && (forall q: nat :: Copies(q) + One(added && q == 0) == old(Copies(q)) + One(added && q == fp))
        && (!added ==> forall j, s :: 0 <= j < size && 0 <= s < slots ==> table[j, s] == old(table[j, s]))
      ensures forall j, s :: 0 <= j < size && 0 <= s < slots ==>
        table[j, s] == old(table[j, s]) || (j == i && old(table[j, s]) == 0 && table[j, s] == fp)
      ensures forall j: nat, q: nat :: j < size && q != 0 && old(Present(j, q)) ==> Present(j, q)
      ensures forall j: nat, q: nat :: ok && j < size && q != 0 && old(Safe(fp, i, j, q)) ==> Present(j, q)
    {
      for s := 0 to slots
        invariant forall j, s :: 0 <= j < size && 0 <= s < slots ==> table[j, s] == old(table[j, s])
        invariant forall q: nat :: Copies(q) == old(Copies(q))
        invariant forall j :: 0 <= j < s ==> old(table[i, j]) != 0 && (initial ==> old(table[i, j]) != fp)
      {
        if initial && table[i, s] == fp {
          return true;
        }
        if table[i, s] == 0 {
          Write(i, s, fp);
          assert In(i, fp);
          forall j: nat, q: nat | j < size && q != 0 && old(In(j, q)) ensures In(j, q) {
            var s :| 0 <= s < slots && old(table[j, s]) == q;
            assert table[j, s] == q;
          }
          return true;
        }
      }
      return false;
    }

    /** swapHostToBE: the fingerprint in hand takes the slot of another, which moves on to its other bucket. */
    method Kick(fp: nat, index: nat, slot: nat) returns (evicted: nat)
      requires Valid() && index < size && slot < slots
      modifies table
      ensures evicted == old(table[index, slot])
      ensures forall j, s :: 0 <= j < size && 0 <= s < slots ==>
        table[j, s] == if j == index && s == slot then fp else old(table[j, s])
      ensures forall q: nat :: Copies(q) + One(q == evicted) == old(Copies(q)) + One(q == fp)
      ensures PowerOfTwo(size) ==> forall i: nat, q: nat :: i < size && q != 0 && old(Safe(fp, index, i, q)) ==>
        Safe(evicted, Alt(index, evicted), i, q)
    {
      evicted := table[index, slot];
      Write(index, slot, fp);
      if PowerOfTwo(size) {
        InvolutionIffPowerOfTwo(size);
        forall i: nat, q: nat | i < size && q != 0 && old(Safe(fp, index, i, q))
          ensures Safe(evicted, Alt(index, evicted), i, q)
        {
          assert table[index, slot] == fp;
          assert Alt(Alt(i, q), q) == i;
          if old(Present(i, q)) {
            var j := if old(In(i, q)) then i else Alt(i, q);
            var s :| 0 <= s < slots && old(table[j, s]) == q;
            if j != index || s != slot {
              assert table[j, s] == q;
            }
          }
        }
      }
    }

    /** Undoing the log, last eviction first. */
    method Rollback(log: seq<RollBack>)
      requires Valid() && forall e :: e in log ==> e.index < size && e.slot < slots
      modifies table
      ensures forall i, s :: 0 <= i < size && 0 <= s < slots ==> table[i, s] == Before(log, i, s, old(table[i, s]))
    {
      var n := |log|;
      assert log[..n] == log;
      while n > 0
        invariant n <= |log|
        invariant forall i, s :: 0 <= i < size && 0 <= s < slots ==>
          Before(log[..n], i, s, table[i, s]) == Before(log, i, s, old(table[i, s]))
      {
        n := n - 1;
        var e := log[n];
        assert log[..n + 1][..n] == log[..n];
        assert e in log;
        table[e.index, e.slot] := e.fp;
      }
    }

    /** With one slot per bucket: the evicted fingerprint finds its other bucket empty. */
    ghost predicate Quick(index: nat)
      requires Valid() && index < size
      reads table
    {
      slots == 1 && Alt(index, table[index, 0]) != index && table[Alt(index, table[index, 0]), 0] == 0
    }

    /** What bucket i holds then. */
    ghost function AfterKick(fp: nat, index: nat, i: nat): nat
      requires Valid() && index < size && i < size
      reads table
    {
      if i == index then fp else if i == Alt(index, table[index, 0]) then table[index, 0] else table[i, 0]
    }

    // ---------- the eviction walk ----------

    /** The table as a value. */
    ghost function Rows(): (t: seq<seq<nat>>)
      requires Valid()
      reads table
      ensures IsTable(t) && forall i, s :: 0 <= i < size && 0 <= s < slots ==> t[i][s] == table[i, s]
    {
      seq(size, i requires 0 <= i < size reads table => seq(slots, s requires 0 <= s < slots reads table => table[i, s]))
    }

    ghost predicate IsTable(t: seq<seq<nat>>) {
      size > 0 && slots > 0 && |t| == size && forall i :: 0 <= i < size ==> |t[i]| == slots
    }

    /** The fingerprint in hand after the evictions of log, and the bucket it looks for. */
    function Hand(fp: nat, log: seq<RollBack>): nat { if log == [] then fp else log[|log| - 1].fp }

    function Heading(i: nat, log: seq<RollBack>): (j: nat)
      requires size > 0 && i < size
      ensures j < size
    {
      if log == [] then i else Alt(log[|log| - 1].index, log[|log| - 1].fp)
    }

    /** What a slot of t holds after them. */
    ghost function Now(t: seq<seq<nat>>, fp: nat, log: seq<RollBack>, i: nat, s: nat): nat
      requires IsTable(t) && i < size && s < slots
    {
      if log == [] then t[i][s]
      else
        var rest := log[..|log| - 1];
        if log[|log| - 1].At(i, s) then Hand(fp, rest) else Now(t, fp, rest, i, s)
    }

    /** The first n evictions that fp starts from bucket i. */
    ghost function Trail(t: seq<seq<nat>>, fp: nat, i: nat, n: nat): (log: seq<RollBack>)
      requires IsTable(t) && i < size
      ensures |log| == n
    {
      if n == 0 then [] else
        var log := Trail(t, fp, i, n - 1);
        var at, slot := Heading(i, log), rand(Hand(fp, log), n - 1) % slots;
        log + [RollBack(at, Now(t, fp, log, at, slot), slot)]
    }

    ghost predicate NoSpace(t: seq<seq<nat>>, i: nat)
      requires IsTable(t) && i < size
    {
      forall s :: 0 <= s < slots ==> t[i][s] != 0
    }

    /** The bucket that the n-th eviction leads to has no space. */
    ghost predicate Blocked(t: seq<seq<nat>>, fp: nat, i: nat, n: nat)
      requires IsTable(t) && i < size
    {
      NoSpace(t, Heading(i, Trail(t, fp, i, n)))
    }

    /** Neither bucket has space or the fingerprint, and every eviction leads to a bucket without space. */
    ghost predicate Stuck(t: seq<seq<nat>>, fp: nat, i: nat)
      requires IsTable(t) && i < size
    {
      && NoSpace(t, i) && fp !in t[i] && NoSpace(t, Alt(i, fp)) && fp !in t[Alt(i, fp)]
      && forall n: nat :: n <= MAX_KICKS ==> Blocked(t, fp, i, n)
    }

    /** The evictions of log have turned t into cur, always from a bucket without space. */
    ghost predicate Walked(t: seq<seq<nat>>, fp: nat, i: nat, log: seq<RollBack>, cur: seq<seq<nat>>)
      requires IsTable(t) && i < size
    {
      && IsTable(cur) && log == Trail(t, fp, i, |log|)
      && (forall j, s :: 0 <= j < size && 0 <= s < slots ==> cur[j][s] == Now(t, fp, log, j, s) && (cur[j][s] == 0 <==> t[j][s] == 0))
      && forall m: nat :: m <= |log| ==> Blocked(t, fp, i, m)
    }

    lemma WalkStart(fp: nat, i: nat)
      requires Valid() && i < size && Full(i)
      ensures Walked(Rows(), fp, i, [], Rows()) && Hand(fp, []) == fp && Heading(i, []) == i
    {
    }

    lemma RowsFull()
      requires Valid()
      ensures forall i :: 0 <= i < size ==> (NoSpace(Rows(), i) <==> Full(i))
    {
      forall i | 0 <= i < size ensures NoSpace(Rows(), i) <==> Full(i) {
        RowFull(i);
      }
    }

    lemma WalkStep(t: seq<seq<nat>>, fp: nat, i: nat, log: seq<RollBack>, cur: seq<seq<nat>>, e: RollBack, cur': seq<seq<nat>>)
      requires IsTable(t) && i < size && Walked(t, fp, i, log, cur) && IsTable(cur') && Hand(fp, log) != 0
      requires e.index == Heading(i, log) && e.slot == rand(Hand(fp, log), |log|) % slots && e.fp == cur[e.index][e.slot]
      requires forall j, s :: 0 <= j < size && 0 <= s < slots ==> cur'[j][s] == if e.At(j, s) then Hand(fp, log) else cur[j][s]
      requires NoSpace(cur', Alt(e.index, e.fp))
      ensures Walked(t, fp, i, log + [e], cur') && Hand(fp, log + [e]) == e.fp && Heading(i, log + [e]) == Alt(e.index, e.fp)
    {
      var more := log + [e];
      hide CuckooFilter.Alt;
      assert more[..|log|] == log && more[|log|] == e;
      assert more == Trail(t, fp, i, |more|);
      assert NoSpace(t, e.index) by {
        assert Blocked(t, fp, i, |log|);
      }
      assert cur[e.index][e.slot] != 0;
      hide CuckooFilter.Trail;
      hide CuckooFilter.Hand;
      forall m: nat | m <= |more| ensures Blocked(t, fp, i, m) {
        if m == |more| {
          assert Heading(i, more) == Alt(e.index, e.fp);
        }
      }
    }

    lemma WalkEnd(t: seq<seq<nat>>, fp: nat, i: nat, log: seq<RollBack>, cur: seq<seq<nat>>, e: RollBack)
      requires IsTable(t) && i < size && Walked(t, fp, i, log, cur)
      requires e.index == Heading(i, log) && e.slot == rand(Hand(fp, log), |log|) % slots && e.fp == cur[e.index][e.slot]
      requires !NoSpace(cur, Alt(e.index, e.fp))
      ensures !Blocked(t, fp, i, |log| + 1)
    {
      hide CuckooFilter.Alt;
      var more := log + [e];
      assert more[..|log|] == log && more[|log|] == e;
      assert more == Trail(t, fp, i, |more|);
      assert Heading(i, more) == Alt(e.index, e.fp);
    }

    /** One round of the eviction loop. */
    method Displace(fp: nat, index: nat, n: nat) returns (ok: bool, e: RollBack)
      requires Valid() && index < size && fp != 0 && Full(index)
      modifies table
      ensures e.index == index && e.slot == rand(fp, n) % slots && e.fp == old(table[index, e.slot]) != 0
      ensures old(Quick(index)) ==> ok && forall i :: 0 <= i < size ==> table[i, 0] == old(AfterKick(fp, index, i))
      ensures !ok ==> forall i, s :: 0 <= i < size && 0 <= s < slots ==> table[i, s] == if e.At(i, s) then fp else old(table[i, s])
      ensures ok <==> !old(Full(Alt(index, table[index, rand(fp, n) % slots])))
      ensures !ok ==> Full(Alt(index, e.fp))
      ensures forall q: nat :: q != 0 ==> Copies(q) + One(!ok && q == e.fp) == old(Copies(q)) + One(q == fp)
      ensures PowerOfTwo(size) ==> forall i: nat, q: nat :: i < size && q != 0 && old(Safe(fp, index, i, q)) ==>
        Safe(e.fp, Alt(index, e.fp), i, q) && (ok ==> Present(i, q))
    {
      hide PowerOfTwo;
      var slot := rand(fp, n) % slots;
      var evicted := Kick(fp, index, slot);
      e := RollBack(index, evicted, slot);
      ok := TryInsert(evicted, Alt(index, evicted), false);
    }

    /** The eviction loop; with its log it can be undone. */
    method Chase(fpo: nat, index1: nat) returns (ok: bool, log: seq<RollBack>)
      requires Valid() && index1 < size && fpo != 0 && Full(index1)
      modifies table
      ensures !ok ==> |log| == MAX_KICKS && Walked(old(Rows()), fpo, index1, log, Rows())
      ensures ok ==> exists n: nat :: n <= MAX_KICKS && !Blocked(old(Rows()), fpo, index1, n)
      ensures ok ==> forall q: nat :: q != 0 ==> Copies(q) == old(Copies(q)) + One(q == fpo)
      ensures old(Quick(index1)) ==> ok && forall i :: 0 <= i < size ==> table[i, 0] == old(AfterKick(fpo, index1, i))
      ensures ok && PowerOfTwo(size) ==> Present(index1, fpo)
      ensures ok && PowerOfTwo(size) ==> forall i: nat, q: nat :: i < size && q != 0 && old(Present(i, q)) ==> Present(i, q)
    {
      ghost var t := Rows();
      ghost var quick := Quick(index1);
      log := [];
      var fp: nat, index: nat := fpo, index1;
      hide PowerOfTwo;
      assert Safe(fp, index, index1, fpo);
      assert forall i: nat, q: nat :: i < size && q != 0 && old(Present(i, q)) ==> Safe(fp, index, i, q);
      assert forall i: nat, q: nat :: i < size && Present(i, q) ==> Safe(fp, index, i, q);
      hide CuckooFilter.Safe;
      hide CuckooFilter.Present;
      hide CuckooFilter.Quick;
      hide CuckooFilter.AfterKick;
      hide CuckooFilter.Alt;
      WalkStart(fpo, index1);
      hide CuckooFilter.Walked;
      hide CuckooFilter.Blocked;
      hide CuckooFilter.Hand;
      hide CuckooFilter.Heading;
      hide CuckooFilter.Copies;
      hide CuckooFilter.Rows;
      RowsFull();
      hide CuckooFilter.Full;
      hide CuckooFilter.NoSpace;
      for n := 0 to MAX_KICKS
        invariant index < size && (n > 0 ==> !quick) && fp != 0 && Full(index)
        invariant |log| == n && fp == Hand(fpo, log) && index == Heading(index1, log) && Walked(t, fpo, index1, log, Rows())
        invariant forall q: nat :: q != 0 ==> Copies(q) + One(q == fp) == old(Copies(q)) + One(q == fpo)
        invariant n == 0 ==> fp == fpo && index == index1 && Quick(index1) == quick
        invariant n == 0 ==> forall i :: 0 <= i < size ==> AfterKick(fpo, index1, i) == old(AfterKick(fpo, index1, i))
        invariant PowerOfTwo(size) ==> forall i: nat, q: nat :: i < size && q != 0 && old(Present(i, q)) ==> Safe(fp, index, i, q)
        invariant PowerOfTwo(size) ==> Safe(fp, index, index1, fpo)
      {
        ghost var cur := Rows();
        RowsFull();
        var e;
        ok, e := Displace(fp, index, n);
        RowsFull();
        if ok {
          WalkEnd(t, fpo, index1, log, cur, e);
          return;
        }
        WalkStep(t, fpo, index1, log, cur, e, Rows());
        log := log + [e];
        fp, index := e.fp, Alt(index, e.fp);
      }
      ok := false;
    }

    /** The eviction loop and its rollback. */
    method Evict(fpo: nat, index1: nat) returns (ok: bool)
      requires Valid() && index1 < size && fpo != 0 && Full(index1)
      modifies table
      ensures !ok ==> forall i, s :: 0 <= i < size && 0 <= s < slots ==> table[i, s] == old(table[i, s])
      ensures ok <==> !forall n: nat :: n <= MAX_KICKS ==> Blocked(old(Rows()), fpo, index1, n)
      ensures forall q: nat :: q != 0 ==> Copies(q) == old(Copies(q)) + One(ok && q == fpo)
      ensures old(Quick(index1)) ==> ok && forall i :: 0 <= i < size ==> table[i, 0] == old(AfterKick(fpo, index1, i))
      ensures ok && PowerOfTwo(size) ==> Present(index1, fpo)
      ensures PowerOfTwo(size) ==> forall i: nat, q: nat :: i < size && q != 0 && old(Present(i, q)) ==> Present(i, q)
    {
      hide PowerOfTwo;
      hide CuckooFilter.Blocked;
      hide CuckooFilter.Walked;
      hide CuckooFilter.Quick;
      hide CuckooFilter.AfterKick;
      hide CuckooFilter.Alt;
      ghost var t := Rows();
      var log;
      ok, log := Chase(fpo, index1);
      if !ok {
        WalkUndone(t, fpo, index1, log, Rows());
        Rollback(log);
        forall q: nat ensures Copies(q) == old(Copies(q)) {
          assert Cells(q) == old(Cells(q));
        }
      }
    }

    /** A walk that met no space has been logged so that it can be undone. */
    lemma WalkUndone(t: seq<seq<nat>>, fp: nat, i: nat, log: seq<RollBack>, cur: seq<seq<nat>>)
      requires IsTable(t) && i < size && Walked(t, fp, i, log, cur)
      ensures forall m: nat :: m <= |log| ==> Blocked(t, fp, i, m)
      ensures forall e :: e in log ==> e.index < size && e.slot < slots
      ensures forall j, s :: 0 <= j < size && 0 <= s < slots ==> Before(log, j, s, cur[j][s]) == t[j][s]
    {
      forall j: nat, s: nat | j < size && s < slots ensures Before(log, j, s, cur[j][s]) == t[j][s] {
        Undone(t, fp, i, |log|, j, s);
      }
      TrailRange(t, fp, i, |log|);
    }

    lemma {:induction false} Undone(t: seq<seq<nat>>, fp: nat, i: nat, n: nat, j: nat, s: nat)
      requires IsTable(t) && i < size && j < size && s < slots
      ensures Before(Trail(t, fp, i, n), j, s, Now(t, fp, Trail(t, fp, i, n), j, s)) == t[j][s]
    {
      if n > 0 {
        var log := Trail(t, fp, i, n - 1);
        assert Trail(t, fp, i, n)[..n - 1] == log;
        Undone(t, fp, i, n - 1, j, s);
      }
    }

    lemma {:induction false} TrailRange(t: seq<seq<nat>>, fp: nat, i: nat, n: nat)
      requires IsTable(t) && i < size
      ensures forall e :: e in Trail(t, fp, i, n) ==> e.index < size && e.slot < slots
    {
      if n > 0 {
        TrailRange(t, fp, i, n - 1);
      }
    }

    /** insert: a failed insertion leaves the table as it was, for any size; with a power of two no key that was
        found is lost, and the inserted one is found. It fails exactly when no bucket on the way has space; it adds
        one copy of the fingerprint, or none where that is met first. */
    method Insert(k: Key) returns (ok: bool)
      requires Valid()
      modifies table
      ensures !ok ==> forall i, s :: 0 <= i < size && 0 <= s < slots ==> table[i, s] == old(table[i, s])
      ensures ok <==> !Stuck(old(Rows()), Fingerprint(hash(k)), hash(k) % size)
      ensures forall q: nat :: q != 0 ==>
        Copies(q) == old(Copies(q)) + One(ok && q == Fingerprint(hash(k)) && !old(Met(q, hash(k) % size)))
      ensures ok && PowerOfTwo(size) ==> Found(k)
      ensures PowerOfTwo(size) ==> forall j: Key :: old(Found(j)) ==> Found(j)
    {
      hide PowerOfTwo;
      hide CuckooFilter.Quick;
      hide CuckooFilter.AfterKick;
      ok := Place(Fingerprint(hash(k)), hash(k) % size);
    }

    /** Looking for a place, the fingerprint itself is met before an empty slot. */
    ghost predicate Met(fp: nat, i: nat)
      requires Valid() && i < size
      reads table
    {
      Settled(i, fp) || (Full(i) && Settled(Alt(i, fp), fp))
    }

    /** The body of insert: into one of the two buckets, else by eviction. The last clause says what happens with
        one slot per bucket while the bucket is empty, or one eviction is enough. */
    method Place(fp: nat, i: nat) returns (ok: bool)
      requires Valid() && i < size && fp != 0
      modifies table
      ensures !ok ==> forall i, s :: 0 <= i < size && 0 <= s < slots ==> table[i, s] == old(table[i, s])
      ensures ok <==> !Stuck(old(Rows()), fp, i)
      ensures forall q: nat :: q != 0 ==> Copies(q) == old(Copies(q)) + One(ok && q == fp && !old(Met(q, i)))
      ensures ok && PowerOfTwo(size) ==> Present(i, fp)
      ensures PowerOfTwo(size) ==> forall j: nat, q: nat :: j < size && q != 0 && old(Present(j, q)) ==> Present(j, q)
      ensures
        && (slots == 1 && old(table[i, 0]) == 0 ==>
              ok && forall j :: 0 <= j < size ==> table[j, 0] == if j == i then fp else old(table[j, 0]))
        && (old(table[i, 0] !in {0, fp} && table[Alt(i, fp), 0] !in {0, fp} && Quick(i)) ==>
              ok && forall j :: 0 <= j < size ==> table[j, 0] == old(AfterKick(fp, i, j)))
    {
      hide PowerOfTwo;
      StuckIs(fp, i);
      ghost var t := Rows();
      MetIn(i, fp);
      hide CuckooFilter.Met;
      hide CuckooFilter.Stuck;
      hide CuckooFilter.NoSpace;
      hide CuckooFilter.Blocked;
      hide CuckooFilter.Rows;
      hide CuckooFilter.Copies;
      hide CuckooFilter.Alt;
      hide CuckooFilter.In;
      hide CuckooFilter.Full;
      hide CuckooFilter.Present;
      hide CuckooFilter.Quick;
      hide CuckooFilter.AfterKick;
      ok := TryBoth(fp, i);
      if !ok {
        RowsIs(t);
        ok := Evict(fp, i);
      }
    }

    /** Into one of the two buckets. */
    method TryBoth(fp: nat, i: nat) returns (ok: bool)
      requires Valid() && i < size && fp != 0
      modifies table
      ensures !ok ==> forall j, s :: 0 <= j < size && 0 <= s < slots ==> table[j, s] == old(table[j, s])
      ensures !ok ==> Full(i) && Quick(i) == old(Quick(i)) && forall j :: 0 <= j < size ==> AfterKick(fp, i, j) == old(AfterKick(fp, i, j))
      ensures ok <==> !old(Full(i)) || old(In(i, fp)) || !old(Full(Alt(i, fp))) || old(In(Alt(i, fp), fp))
      ensures forall q: nat :: q != 0 ==> Copies(q) == old(Copies(q)) + One(ok && q == fp && !old(Met(q, i)))
      ensures ok ==> Present(i, fp)
      ensures forall j: nat, q: nat :: j < size && q != 0 && old(Present(j, q)) ==> Present(j, q)
      ensures slots == 1 && old(table[i, 0]) == 0 ==>
        ok && forall j :: 0 <= j < size ==> table[j, 0] == if j == i then fp else old(table[j, 0])
    {
      SettledIn(i, fp);
      SettledIn(Alt(i, fp), fp);
      hide CuckooFilter.Cells;
      hide CuckooFilter.Alt;
      ok := TryInsert(fp, i, true);
      if !ok {
        ok := TryInsert(fp, Alt(i, fp), true);
      }
    }

    lemma RowsIs(t: seq<seq<nat>>)
      requires Valid() && IsTable(t) && forall i, s :: 0 <= i < size && 0 <= s < slots ==> t[i][s] == table[i, s]
      ensures Rows() == t
    {
      forall i | 0 <= i < size ensures Rows()[i] == t[i] {
        assert forall s :: 0 <= s < slots ==> Rows()[i][s] == t[i][s];
      }
    }

    lemma RowHas(i: nat, q: nat)
      requires Valid() && i < size
      ensures q in Rows()[i] <==> In(i, q)
    {
      var row := Rows()[i];
      assert forall s :: 0 <= s < slots ==> row[s] == table[i, s];
      if In(i, q) {
        var s :| 0 <= s < slots && table[i, s] == q;
        assert row[s] == q;
      }
    }

    lemma StuckIs(fp: nat, i: nat)
      requires Valid() && i < size
      ensures Stuck(Rows(), fp, i) <==>
        && Full(i) && !In(i, fp) && Full(Alt(i, fp)) && !In(Alt(i, fp), fp)
        && forall n: nat :: n <= MAX_KICKS ==> Blocked(Rows(), fp, i, n)
    {
      hide CuckooFilter.Blocked;
      hide CuckooFilter.Alt;
      hide CuckooFilter.In;
      RowHas(i, fp);
      RowHas(Alt(i, fp), fp);
      RowFull(i);
      RowFull(Alt(i, fp));
      hide CuckooFilter.Rows;
      hide CuckooFilter.NoSpace;
      hide CuckooFilter.Full;
    }

    lemma RowFull(i: nat)
      requires Valid() && i < size
      ensures NoSpace(Rows(), i) <==> Full(i)
    {
      assert forall s :: 0 <= s < slots ==> Rows()[i][s] == table[i, s];
    }

    lemma MetIn(i: nat, q: nat)
      requires Valid() && i < size
      ensures Met(q, i) ==> In(i, q) || In(Alt(i, q), q)
    {
    }

    lemma SettledIn(i: nat, q: nat)
      requires Valid() && i < size
      ensures Settled(i, q) ==> In(i, q)
      ensures Full(i) && In(i, q) ==> Settled(i, q)
    {
    }

    /** How many insertions of the run succeeded for a key with fingerprint q. */
    function Times(ks: seq<Key>, oks: seq<bool>, q: nat): nat
      requires width > 1 && |oks| <= |ks|
    {
      if oks == [] then 0
      else
        var n := |oks| - 1;
        Times(ks, oks[..n], q) + One(oks[n] && Fingerprint(hash(ks[n])) == q)
    }

    lemma TimesPositive(ks: seq<Key>, oks: seq<bool>, q: nat)
      requires width > 1 && |oks| <= |ks| && Times(ks, oks, q) > 0
      ensures exists n :: 0 <= n < |oks| && oks[n] && Fingerprint(hash(ks[n])) == q
    {
      var n := |oks| - 1;
      if !(oks[n] && Fingerprint(hash(ks[n])) == q) {
        TimesPositive(ks, oks[..n], q);
      }
    }

    /** Any run of insertions: no value has more new copies than insertions that succeeded for it; with a power of two
        whatever was reported inserted is found at the end. */
    method InsertAll(ks: seq<Key>) returns (oks: seq<bool>)
      requires Valid()
      modifies table
      ensures |oks| == |ks| && forall q: nat :: q != 0 ==> old(Copies(q)) <= Copies(q) <= old(Copies(q)) + Times(ks, oks, q)
      ensures PowerOfTwo(size) ==> forall j :: 0 <= j < |ks| && oks[j] ==> Found(ks[j])
      ensures PowerOfTwo(size) ==> forall k: Key :: old(Found(k)) ==> Found(k)
    {
      hide PowerOfTwo;
      hide CuckooFilter.Found;
      hide CuckooFilter.Copies;
      hide CuckooFilter.Stuck;
      hide CuckooFilter.Met;
      hide CuckooFilter.Rows;
      oks := [];
      for n := 0 to |ks|
        invariant |oks| == n && forall q: nat :: q != 0 ==> old(Copies(q)) <= Copies(q) <= old(Copies(q)) + Times(ks, oks, q)
        invariant PowerOfTwo(size) ==> forall j :: 0 <= j < n && oks[j] ==> Found(ks[j])
        invariant PowerOfTwo(size) ==> forall k: Key :: old(Found(k)) ==> Found(k)
      {
        var ok := Insert(ks[n]);
        assert (oks + [ok])[..n] == oks;
        oks := oks + [ok];
      }
    }

    /** Filling an empty filter: whatever it finds has the fingerprint of a key that was inserted. */
    method FillEmpty(ks: seq<Key>) returns (oks: seq<bool>)
      requires Valid() && forall i, s :: 0 <= i < size && 0 <= s < slots ==> table[i, s] == 0
      modifies table
      ensures |oks| == |ks|
      ensures forall k: Key :: Found(k) ==> exists n :: 0 <= n < |ks| && oks[n] && Fingerprint(hash(ks[n])) == Fingerprint(hash(k))
      ensures PowerOfTwo(size) ==> forall n :: 0 <= n < |ks| && oks[n] ==> Found(ks[n])
    {
      hide PowerOfTwo;
      forall q: nat | q != 0 ensures Copies(q) == 0 {
        assert Cells(q) == {};
      }
      oks := InsertAll(ks);
      forall k: Key | Found(k)
        ensures exists n :: 0 <= n < |ks| && oks[n] && Fingerprint(hash(ks[n])) == Fingerprint(hash(k))
      {
        var q := Fingerprint(hash(k));
        InCopies(hash(k) % size, q);
        InCopies(Alt(hash(k) % size, q), q);
        TimesPositive(ks, oks, q);
      }
    }

    lemma InCopies(i: nat, q: nat)
      requires Valid() && i < size
      ensures In(i, q) ==> Copies(q) > 0
    {
      if In(i, q) {
        var s: nat :| s < slots && table[i, s] == q;
        assert (i, s) in Cells(q);
      }
    }
  }

  /** Three buckets of one slot: all three keys are reported inserted, and the first is not found any more. The
      first key (hash 4, bucket 1) is evicted to bucket 0 and from there to bucket 2, where nobody looks for it. */
  method LostKey() returns (f: CuckooFilter, a: bool, b: bool, c: bool, found: bool)
    ensures a && b && c && !found
  {
    var hash: Key -> nat := k => if k == [1] then 4 else if k == [2] then 7 else 9;
    var mix: nat -> nat := fp => if fp == 4 then 2 else 0;
    hide Xor;
    hide PowerOfTwo;
    f := new CuckooFilter(3, 1, 256, hash, mix, (x, y) => 0);
    XorFacts();
    assert f.Alt(1, 4) == 0 && f.Alt(0, 4) == 2 && f.Alt(1, 7) == 1 && f.Alt(0, 9) == 0;
    assert f.Fingerprint(4) == 4 && f.Fingerprint(7) == 7 && f.Fingerprint(9) == 9;
    a := InsertOne(f, [1]);
    assert f.table[0, 0] == 0 && f.table[1, 0] == 4 && f.table[2, 0] == 0;
    b := InsertOne(f, [2]);
    assert f.table[0, 0] == 4 && f.table[1, 0] == 7 && f.table[2, 0] == 0;
    c := InsertOne(f, [3]);
    assert f.table[0, 0] == 9 && f.table[1, 0] == 7 && f.table[2, 0] == 4;
    found := Miss(f);
  }

  /** An insertion, as Insert does it, with one slot per bucket, where one eviction is enough. */
  method InsertOne(f: CuckooFilter, k: Key) returns (ok: bool)
    requires f.Valid() && f.slots == 1
    modifies f.table
    ensures var fp, i := f.Fingerprint(f.hash(k)), f.hash(k) % f.size;
      && (old(f.table[i, 0]) == 0 ==> ok && forall j :: 0 <= j < f.size ==> f.table[j, 0] == if j == i then fp else old(f.table[j, 0]))
      && (old(f.table[i, 0] !in {0, fp} && f.table[f.Alt(i, fp), 0] !in {0, fp} && f.Quick(i)) ==>
            ok && forall j :: 0 <= j < f.size ==> f.table[j, 0] == old(f.AfterKick(fp, i, j)))
  {
    ok := f.Place(f.Fingerprint(f.hash(k)), f.hash(k) % f.size);
  }

  method Miss(f: CuckooFilter) returns (found: bool)
    requires f.Valid() && f.slots == 1 && f.hash([1]) % f.size < f.size
    requires var fp, i := f.Fingerprint(f.hash([1])), f.hash([1]) % f.size; f.table[i, 0] != fp && f.table[f.Alt(i, fp), 0] != fp
    ensures !found
  {
    found := f.Lookup([1]);
  }

  lemma XorFacts()
    ensures Xor(1, 2) == 3 && Xor(0, 2) == 2 && Xor(1, 0) == 1 && Xor(0, 0) == 0
  {
  }
}
