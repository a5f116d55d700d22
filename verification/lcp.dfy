/** The comparators of include/cmplcp.h and the prefix-skipping PairLCPCompare of
    hm4/avllist.cc. */
module LcpCompare {
  import opened Keys
  import opened Bits

  // ---------- words ----------

  /** The bytes read as one little-endian word. */
  function Word(s: Key): nat {
    if s == [] then 0 else 256 * Word(s[1..]) + s[0]
  }

  /** firstDifferentByte on the exclusive or of two words. */
  function FirstDifferentByte(a: Key, b: Key): nat
    requires Xor(Word(a), Word(b)) != 0
  {
    Ctz(Xor(Word(a), Word(b))) / 8
  }

  /** Comparing whole words finds the first byte where the strings part. */
  lemma {:induction false} WordsFindFirstByte(a: Key, b: Key)
    requires |a| == |b|
    ensures Xor(Word(a), Word(b)) == 0 <==> a == b
    ensures a != b ==> FirstDifferentByte(a, b) == Lcp(a, b)
  {
    hide Word;
    hide Lcp;
    hide Xor;
    hide Ctz;
    if |a| > 0 {
      var hi, lo := Xor(Word(a[1..]), Word(b[1..])), Xor(a[0], b[0]);
      WordsFindFirstByte(a[1..], b[1..]);
      FirstByte(a, b);
      XorByte(Word(a[1..]), Word(b[1..]), a[0], b[0]);
      XorZeroIffEqual(a[0], b[0]);
      if a != b {
        CtzByte(hi, lo);
      }
    } else {
      XorSelf(Word(a));
    }
  }

  lemma FirstByte(a: Key, b: Key)
    requires |a| == |b| > 0
    ensures Word(a) == 256 * Word(a[1..]) + a[0] && Word(b) == 256 * Word(b[1..]) + b[0]
    ensures a == b <==> a[0] == b[0] && a[1..] == b[1..]
    ensures Lcp(a, b) == if a[0] == b[0] then 1 + Lcp(a[1..], b[1..]) else 0
  {
    assert a == [a[0]] + a[1..] && b == [b[0]] + b[1..];
  }

  // ---------- comparison of the first size bytes ----------

  /** What comparing the first size bytes must answer: a sign, and how many bytes agree. */
  predicate Compared(a: Key, b: Key, size: nat, cmp: int, i: nat) {
    && size <= |a| && size <= |b| && i <= size
    && (forall j :: 0 <= j < i ==> a[j] == b[j])
    && (if i < size then a[i] != b[i] && cmp == Sgn(a[i], b[i]) else cmp == 0)
  }

  /** One word of n bytes at offset i: the sign when it differs, and where. */
  method CompareWord(a: Key, b: Key, i: nat, n: nat) returns (cmp: int, j: nat)
    requires i + n <= |a| && i + n <= |b| && n > 0
    ensures i <= j <= i + n && forall k :: i <= k < j ==> a[k] == b[k]
    ensures j < i + n ==> a[j] != b[j] && cmp == Sgn(a[j], b[j])
    ensures j == i + n ==> cmp == 0
  {
    var wa, wb := a[i..i + n], b[i..i + n];
    WordsFindFirstByte(wa, wb);
    var x := Xor(Word(wa), Word(wb));
    if x != 0 {
      j := i + Ctz(x) / 8;
      assert forall k :: i <= k < i + n ==> a[k] == wa[k - i] && b[k] == wb[k - i];
      cmp := Sgn(a[j], b[j]);
    } else {
      assert forall k :: i <= k < i + n ==> a[k] == wa[k - i] && b[k] == wb[k - i];
      cmp, j := 0, i + n;
    }
  }

  method CmpLong(a: Key, b: Key, size: nat) returns (cmp: int, i: nat)
    requires size <= |a| && size <= |b|
    ensures Compared(a, b, size, cmp, i)
  {
    i := 0;
    while i + 8 <= size
      invariant i <= size && forall j :: 0 <= j < i ==> a[j] == b[j]
    {
      var c, j := CompareWord(a, b, i, 8);
      if c != 0 {
        return c, j;
      }
      i := i + 8;
    }
    while i < size
      invariant i <= size && forall j :: 0 <= j < i ==> a[j] == b[j]
    {
      if a[i] != b[i] {
        return Sgn(a[i], b[i]), i;
      }
      i := i + 1;
    }
    cmp := 0;
  }

  /** The running state of a comparison made of blocks. */
  class Comp {
    const a: Key
    const b: Key
    var done: bool
    var i: nat
    var result: int

    constructor (a: Key, b: Key)
      ensures this.a == a && this.b == b && !done && i == 0 && result == 0
    {
      this.a, this.b := a, b;
      done, i, result := false, 0, 0;
    }

    ghost predicate Agrees(end: nat)
      reads this
    {
      && end <= |a| && end <= |b|
      && (forall j :: 0 <= j < i ==> j < end && a[j] == b[j])
      && (done ==> i < end && a[i] != b[i] && result == Sgn(a[i], b[i]))
      && (!done ==> i == end && result == 0)
    }

    method Block(n: nat, ghost end: nat)
      requires Agrees(end) && end + n <= |a| && end + n <= |b| && n > 0
      modifies this
      ensures Agrees(end + n)
    {
      if done {
        return;
      }
      var c, j := CompareWord(a, b, i, n);
      i := j;
      if c != 0 {
        result, done := c, true;
      }
    }
  }

  /** cmpMain: up to 32 bytes as blocks of 8, 4, 2 and 1, longer strings in a loop. */
  method CmpMain(a: Key, b: Key, size: nat) returns (cmp: int, i: nat)
    requires size <= |a| && size <= |b|
    ensures Compared(a, b, size, cmp, i)
  {
    if size > 32 {
      cmp, i := CmpLong(a, b, size);
      return;
    }
    var c := new Comp(a, b);
    var end := 0;
    while end + 8 <= size
      invariant end <= size && c.a == a && c.b == b && c.Agrees(end) && fresh(c)
    {
      c.Block(8, end);
      end := end + 8;
    }
    if size - end >= 4 {
      c.Block(4, end);
      end := end + 4;
    }
    if size - end >= 2 {
      c.Block(2, end);
      end := end + 2;
    }
    if size - end == 1 {
      c.Block(1, end);
      end := end + 1;
    }
    cmp, i := c.result, c.i;
  }

  /** cmpLCP: sign and common prefix, with the shortcut for an empty string. */
  method CmpLCP(a: Key, b: Key) returns (cmp: int, prefix: nat)
    ensures |a| == 0 || |b| == 0 ==> cmp == 0 && prefix == 0
    ensures |a| > 0 && |b| > 0 ==> cmp == Sign(a, b) && prefix == Lcp(a, b)
  {
    var size := if |a| < |b| then |a| else |b|;
    if size == 0 {
      return 0, 0;
    }
    cmp, prefix := CmpMain(a, b, size);
    LcpUnique(a, b, prefix);
    LessIrreflexive(a);
    if cmp != 0 {
      return;
    }
    if |a| == |b| {
      assert a == b;
    }
    return Sgn(|a|, |b|), size;
  }

  // ---------- the comparator that skips what it knows ----------

  datatype Bound = Open | At(key: Key)

  /** Keys of nodes still to be met lie strictly between the bounds. */
  predicate Between(lo: Bound, k: Key, hi: Bound) {
    (lo.At? ==> Less(lo.key, k)) && (hi.At? ==> Less(k, hi.key))
  }

  lemma SharedPrefix(lo: Key, hi: Key, key: Key, k: Key, n: nat)
    requires Less(lo, key) && Less(key, hi) && Less(lo, k) && Less(k, hi)
    requires n <= Lcp(lo, key) && n <= Lcp(hi, key)
    ensures n < |k| && n < |key| && forall i :: 0 <= i < n ==> k[i] == key[i]
  {
    LcpSymmetric(lo, key);
    var p := Lcp(lo, k);
    assert forall i :: 0 <= i < n ==> lo[i] == key[i] && hi[i] == key[i];
    if p < n {
      LcpUnique(k, hi, p);
      assert false;
    }
  }

  class PairLCPCompare {
    var prefixL: nat
    var prefixR: nat

    constructor ()
      ensures prefixL == 0 && prefixR == 0
    {
      prefixL, prefixR := 0, 0;
    }

    /** The remembered lengths are what key shares with the nearest nodes on either side. */
    ghost predicate Tracks(lo: Bound, hi: Bound, key: Key)
      reads this
    {
      && (lo.Open? ==> prefixR == 0)
      && (lo.At? ==> Less(lo.key, key) && prefixR == Lcp(lo.key, key))
      && (hi.Open? ==> prefixL == 0)
      && (hi.At? ==> Less(key, hi.key) && prefixL == Lcp(hi.key, key))
    }

    /** Comparing only the bytes after the known prefix gives the true sign: both
        suffixes are non-empty, so the empty-suffix shortcut is never taken. */
    method Compare(k: Key, key: Key, ghost lo: Bound, ghost hi: Bound) returns (comp: int)
      requires |k| > 0
      requires key != [] ==> Tracks(lo, hi, key) && Between(lo, k, hi)
      modifies this
      ensures key == [] ==> comp == -1
      ensures key != [] ==> comp == Sign(k, key)
      ensures key != [] && comp > 0 ==> Tracks(lo, At(k), key)
      ensures key != [] && comp < 0 ==> Tracks(At(k), hi, key)
    {
      var pr := if prefixL < prefixR then prefixL else prefixR;
      var pref := 0;
      if key == [] {
        comp := -1;
      } else {
        if lo.At? && hi.At? {
          SharedPrefix(lo.key, hi.key, key, k, pr);
        }
        assert pr < |k| && pr < |key|;
        SuffixOrder(k, key, pr);
        LcpSymmetric(k, key);
        LessTotal(k, key);
        comp, pref := CmpLCP(k[pr..], key[pr..]);
      }
      if comp >= 0 {
        prefixL := pr + pref;
      }
      if comp <= 0 {
        prefixR := pr + pref;
      }
    }
  }
}
