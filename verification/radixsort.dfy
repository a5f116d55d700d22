/** The three-way radix quicksort of include/threewayquicksort.h and the removal of duplicates
    that prepare an unsorted memtable for the disk. */
module RadixSort {
  import opened Keys
  import opened Pairs

  // ---------- keys by digit ----------

  /** charAt: -1 past the end. */
  function CharAt(k: Key, digit: nat): int {
    if digit < |k| then Signed(k[digit]) else -1
  }

  /** compareLT: the order of what follows the first digit bytes. */
  predicate CompareLT(a: Key, b: Key, digit: nat) {
    Less(if digit < |a| then a[digit..] else [], if digit < |b| then b[digit..] else [])
  }

  predicate SamePrefix(a: Key, b: Key, digit: nat) {
    digit <= |a| && digit <= |b| && forall i :: 0 <= i < digit ==> a[i] == b[i]
  }

  lemma CompareIsLess(a: Key, b: Key, digit: nat)
    requires SamePrefix(a, b, digit)
    ensures CompareLT(a, b, digit) <==> Less(a, b)
  {
    SuffixOrder(a, b, digit);
    assert digit == |a| ==> a[digit..] == [];
    assert digit == |b| ==> b[digit..] == [];
  }

  /** The characters at digit order the keys: smaller means smaller, equal and not negative means that one more
      byte is shared, equal and negative means the same key. */
  predicate Decides(a: Key, b: Key, digit: nat) {
    && (CharAt(a, digit) < CharAt(b, digit) ==> Less(a, b))
    && (CharAt(b, digit) < CharAt(a, digit) ==> Less(b, a))
    && (CharAt(a, digit) == CharAt(b, digit) >= 0 ==> SamePrefix(a, b, digit + 1))
    && (CharAt(a, digit) == CharAt(b, digit) < 0 ==> a == b)
  }

  /** Where both keys go on, the bytes lie on one side of 128, and are below it if they are the same byte of different
      keys. Where only one goes on, its byte is below 128: above, it would sort in front of the end of a key, and 255
      could not be told from it. */
  predicate Telling(a: Key, b: Key, digit: nat) {
    if digit < |a| && digit < |b| then
      if a[digit] == b[digit] then a[digit] < 128 || a == b else a[digit] < 128 <==> b[digit] < 128
    else
      (digit < |a| ==> a[digit] < 128) && (digit < |b| ==> b[digit] < 128)
  }

  /** Reading a byte as char keeps the order exactly when the two lie on the same side of 128. */
  lemma SignedOrder(a: Byte, b: Byte)
    requires a < b
    ensures Signed(a) < Signed(b) <==> (a < 128 <==> b < 128)
  {
  }

  lemma DigitDecides(a: Key, b: Key, digit: nat)
    requires SamePrefix(a, b, digit)
    ensures Decides(a, b, digit) <==> Telling(a, b, digit)
  {
    LcpSymmetric(a, b);
    if digit < |a| && digit < |b| {
      if a[digit] < b[digit] {
        SignedOrder(a[digit], b[digit]);
        LcpUnique(a, b, digit);
      } else if b[digit] < a[digit] {
        SignedOrder(b[digit], a[digit]);
        LcpUnique(a, b, digit);
      }
    } else {
      LcpUnique(a, b, digit);
      assert |a| == |b| ==> a == b;
    }
    hide Lcp;
  }

  /** The digits tell the keys apart at every step of the sort. */
  ghost predicate Tells(a: Key, b: Key) {
    forall digit: nat :: SamePrefix(a, b, digit) ==> Telling(a, b, digit)
  }

  predicate Ascii(k: Key) { forall i :: 0 <= i < |k| ==> k[i] < 128 }

  lemma AsciiTells(a: Key, b: Key)
    requires Ascii(a) && Ascii(b)
    ensures Tells(a, b)
  {
  }

  predicate Leq(a: Key, b: Key) { !Less(b, a) }

  lemma LeqTransitive(a: Key, b: Key, c: Key)
    requires Leq(a, b) && Leq(b, c)
    ensures Leq(a, c)
  {
    LessTotal(a, b);
    LessTotal(b, c);
    if Less(c, a) {
      if a == b || b == c {
      } else {
        LessTransitive(a, b, c);
        LessAntisymmetric(a, c);
      }
    }
  }

  // ---------- ranges of the vector ----------

  predicate Ordered(v: seq<Pair>, lo: int, hi: int)
    requires 0 <= lo <= hi <= |v|
  {
    forall i, j :: lo <= i < j < hi ==> Leq(v[i].key, v[j].key)
  }

  /** What sort may rely on: the first digit bytes are known to agree. */
  predicate Ready(v: seq<Pair>, lo: int, hi: int, digit: nat, bound: nat)
    requires 0 <= lo <= hi <= |v|
  {
    && (forall i :: lo <= i < hi ==> digit <= |v[i].key| <= bound)
    && forall i, j :: lo <= i < hi && lo <= j < hi ==> SamePrefix(v[i].key, v[j].key, digit)
  }

  /** Keys that the digits tell apart, two by two: the ones the partition is right about. */
  ghost predicate AllTell(v: seq<Pair>, lo: int, hi: int)
    requires 0 <= lo <= hi <= |v|
  {
    forall i, j :: lo <= i < hi && lo <= j < hi ==> Tells(v[i].key, v[j].key)
  }

  lemma AsciiAllTell(v: seq<Pair>)
    requires forall i :: 0 <= i < |v| ==> Ascii(v[i].key)
    ensures AllTell(v, 0, |v|)
  {
    forall i, j | 0 <= i < |v| && 0 <= j < |v| ensures Tells(v[i].key, v[j].key) {
      AsciiTells(v[i].key, v[j].key);
    }
  }

  /** Only positions from lo to hi differ, and they hold the same pairs. */
  ghost predicate Shuffled(v: seq<Pair>, w: seq<Pair>, lo: int, hi: int) {
    && |v| == |w| && 0 <= lo <= hi <= |v|
    && v[..lo] == w[..lo] && v[hi..] == w[hi..] && multiset(v) == multiset(w)
  }

  lemma RangePerm(v: seq<Pair>, w: seq<Pair>, lo: int, hi: int)
    requires Shuffled(v, w, lo, hi)
    ensures multiset(v[lo..hi]) == multiset(w[lo..hi])
  {
    assert v == v[..lo] + v[lo..hi] + v[hi..];
    assert w == w[..lo] + w[lo..hi] + w[hi..];
    var a, m, n, c := multiset(v[..lo]), multiset(v[lo..hi]), multiset(w[lo..hi]), multiset(v[hi..]);
    assert multiset(v) == a + m + c && multiset(w) == a + n + c;
    forall x ensures m[x] == n[x] {
      assert (a + m + c)[x] == (a + n + c)[x];
    }
  }

  /** Every pair of the range was in the range before. */
  lemma ShuffledFrom(v: seq<Pair>, w: seq<Pair>, lo: int, hi: int)
    requires Shuffled(v, w, lo, hi)
    ensures forall i :: lo <= i < hi ==> w[i] in v[lo..hi]
    ensures forall k :: 0 <= k < lo || hi <= k < |v| ==> v[k] == w[k]
  {
    RangePerm(v, w, lo, hi);
    SameMembers(w[lo..hi], v[lo..hi]);
    forall i | lo <= i < hi ensures w[i] in v[lo..hi] {
      assert w[i] == w[lo..hi][i - lo];
    }
    forall k | 0 <= k < lo || hi <= k < |v| ensures v[k] == w[k] {
      if k < lo {
        assert v[..lo][k] == w[..lo][k];
      } else {
        assert v[hi..][k - hi] == w[hi..][k - hi];
      }
    }
  }

  lemma PlaceOf(v: seq<Pair>, lo: int, hi: int, x: Pair) returns (k: int)
    requires 0 <= lo <= hi <= |v| && x in v[lo..hi]
    ensures lo <= k < hi && v[k] == x
  {
    var s := v[lo..hi];
    var j :| 0 <= j < |s| && s[j] == x;
    k := lo + j;
  }

  lemma ShuffledSelf(v: seq<Pair>, lo: int, hi: int)
    requires 0 <= lo <= hi <= |v|
    ensures Shuffled(v, v, lo, hi)
  {
  }

  lemma ShuffledTrans(u: seq<Pair>, v: seq<Pair>, w: seq<Pair>, lo: int, hi: int)
    requires Shuffled(u, v, lo, hi) && Shuffled(v, w, lo, hi)
    ensures Shuffled(u, w, lo, hi)
  {
  }

  lemma ShuffledWider(v: seq<Pair>, w: seq<Pair>, lo: int, hi: int, lo': int, hi': int)
    requires Shuffled(v, w, lo, hi) && 0 <= lo' <= lo && hi <= hi' <= |v|
    ensures Shuffled(v, w, lo', hi')
  {
    assert v[..lo'] == v[..lo][..lo'] && w[..lo'] == w[..lo][..lo'];
    assert v[hi'..] == v[hi..][hi' - hi..] && w[hi'..] == w[hi..][hi' - hi..];
  }

  lemma ShuffledReady(v: seq<Pair>, w: seq<Pair>, lo: int, hi: int, digit: nat, bound: nat)
    requires Shuffled(v, w, lo, hi) && Ready(v, lo, hi, digit, bound)
    ensures Ready(w, lo, hi, digit, bound)
  {
    ShuffledFrom(v, w, lo, hi);
    hide Shuffled;
    hide SamePrefix;
    forall i, j | lo <= i < hi && lo <= j < hi
      ensures digit <= |w[i].key| <= bound && SamePrefix(w[i].key, w[j].key, digit)
    {
      var i' := PlaceOf(v, lo, hi, w[i]);
      var j' := PlaceOf(v, lo, hi, w[j]);
    }
  }

  /** A part of the shuffled range keeps its keys apart. */
  lemma TellKept(v: seq<Pair>, w: seq<Pair>, lo: int, hi: int, p: int, q: int)
    requires Shuffled(v, w, lo, hi) && AllTell(v, lo, hi) && lo <= p <= q <= hi
    ensures AllTell(w, p, q)
  {
    ShuffledFrom(v, w, lo, hi);
    hide Shuffled;
    hide Tells;
    forall i, j | p <= i < q && p <= j < q ensures Tells(w[i].key, w[j].key) {
      var i' := PlaceOf(v, lo, hi, w[i]);
      var j' := PlaceOf(v, lo, hi, w[j]);
    }
  }

  function Swap(v: seq<Pair>, i: nat, j: nat): (w: seq<Pair>)
    requires i < |v| && j < |v|
    ensures |w| == |v|
  {
    v[i := v[j]][j := v[i]]
  }

  lemma SwapShuffled(v: seq<Pair>, i: nat, j: nat, lo: nat, hi: nat)
    requires lo <= i < hi <= |v| && lo <= j < hi
    ensures Shuffled(v, Swap(v, i, j), lo, hi)
  {
    assert v[..lo] == Swap(v, i, j)[..lo];
    assert v[hi..] == Swap(v, i, j)[hi..];
  }

  // ---------- insertion ----------

  /** The range is in order but for position j, which is below everything behind it. */
  ghost predicate Sinking(v: seq<Pair>, lo: int, hi: int, j: int)
    requires 0 <= lo <= j < hi <= |v|
  {
    && (forall p, q :: lo <= p < q < hi && p != j && q != j ==> Leq(v[p].key, v[q].key))
    && (forall k :: j < k < hi ==> Leq(v[j].key, v[k].key))
  }

  lemma SinkStep(v: seq<Pair>, lo: nat, hi: nat, j: nat)
    requires lo < j < hi <= |v| && Sinking(v, lo, hi, j) && Less(v[j].key, v[j - 1].key)
    ensures Sinking(Swap(v, j, j - 1), lo, hi, j - 1)
  {
    LessAntisymmetric(v[j].key, v[j - 1].key);
    hide Less;
  }

  lemma SinkEnd(v: seq<Pair>, lo: nat, hi: nat, j: nat)
    requires lo <= j < hi <= |v| && Sinking(v, lo, hi, j) && (j == lo || Leq(v[j - 1].key, v[j].key))
    ensures Ordered(v, lo, hi)
  {
    hide Leq;
    forall p, q | lo <= p < q < hi ensures Leq(v[p].key, v[q].key) {
      if q == j && p < j - 1 {
        LeqTransitive(v[p].key, v[j - 1].key, v[j].key);
      }
    }
  }

  lemma ReadyAt(v: seq<Pair>, lo: int, hi: int, digit: nat, bound: nat, i: int, j: int)
    requires 0 <= lo <= hi <= |v| && Ready(v, lo, hi, digit, bound) && lo <= i < hi && lo <= j < hi
    ensures CompareLT(v[i].key, v[j].key, digit) <==> Less(v[i].key, v[j].key)
  {
    CompareIsLess(v[i].key, v[j].key, digit);
  }

  lemma SinkOnce(v: seq<Pair>, u: seq<Pair>, lo: nat, n: nat, hi: nat, j: nat, digit: nat, bound: nat)
    requires lo < j <= n < hi <= |u| && Shuffled(v, u, lo, hi) && Ready(u, lo, hi, digit, bound)
    requires Sinking(u, lo, n + 1, j) && CompareLT(u[j].key, u[j - 1].key, digit)
    ensures var w := Swap(u, j, j - 1);
      Shuffled(v, w, lo, hi) && Ready(w, lo, hi, digit, bound) && Sinking(w, lo, n + 1, j - 1)
  {
    hide Ready;
    hide Sinking;
    hide Swap;
    hide CompareLT;
    hide Shuffled;
    ReadyAt(u, lo, hi, digit, bound, j, j - 1);
    SinkStep(u, lo, n + 1, j);
    SwapShuffled(u, j, j - 1, lo, hi);
    ShuffledTrans(v, u, Swap(u, j, j - 1), lo, hi);
    ShuffledReady(u, Swap(u, j, j - 1), lo, hi, digit, bound);
  }

  function Fill(v: seq<Pair>, j: nat, x: Pair): (w: seq<Pair>)
    requires j < |v|
    ensures |w| == |v|
  {
    v[j := x]
  }

  /** A hole that moves is a swap of the filled vector. */
  lemma Filled(v: seq<Pair>, j: nat, k: nat, temp: Pair)
    requires k < j < |v|
    ensures Swap(Fill(v, j, temp), j, k) == Fill(Fill(v, j, v[k]), k, temp)
    ensures Fill(v, j, temp)[j] == temp && Fill(v, j, temp)[k] == v[k]
  {
  }

  lemma SwapAt(v: seq<Pair>, i: nat, j: nat)
    requires i < |v| && j < |v|
    ensures var w := Swap(v, i, j);
      w[i] == v[j] && w[j] == v[i] && forall k :: 0 <= k < |v| && k != i && k != j ==> w[k] == v[k]
  {
  }

  lemma SwapKeeps(v: seq<Pair>, u: seq<Pair>, lo: nat, hi: nat, i: nat, j: nat, digit: nat, bound: nat)
    requires lo <= i < hi <= |u| && lo <= j < hi && Shuffled(v, u, lo, hi) && Ready(u, lo, hi, digit, bound)
    ensures Shuffled(v, Swap(u, i, j), lo, hi) && Ready(Swap(u, i, j), lo, hi, digit, bound)
  {
    hide Swap;
    hide Ready;
    hide Shuffled;
    SwapShuffled(u, i, j, lo, hi);
    ShuffledTrans(v, u, Swap(u, i, j), lo, hi);
    ShuffledReady(u, Swap(u, i, j), lo, hi, digit, bound);
  }

  lemma SwapTrans(v: seq<Pair>, u: seq<Pair>, lo: nat, hi: nat, i: nat, j: nat)
    requires lo <= i < hi <= |u| && lo <= j < hi && Shuffled(v, u, lo, hi)
    ensures Shuffled(v, Swap(u, i, j), lo, hi)
  {
    hide Swap;
    hide Shuffled;
    SwapShuffled(u, i, j, lo, hi);
    ShuffledTrans(v, u, Swap(u, i, j), lo, hi);
  }

  // ---------- walls ----------

  /** No pair in front of m is above a pair behind it. */
  predicate Wall(v: seq<Pair>, lo: int, m: int, hi: int)
    requires 0 <= lo <= m <= hi <= |v|
  {
    forall i, j :: lo <= i < m <= j < hi ==> Leq(v[i].key, v[j].key)
  }

  lemma WallKept(v: seq<Pair>, w: seq<Pair>, p: int, q: int, lo: int, m: int, hi: int)
    requires Shuffled(v, w, p, q) && 0 <= lo <= p <= q <= hi <= |v| && lo <= m <= hi && (m <= p || q <= m) && Wall(v, lo, m, hi)
    ensures Wall(w, lo, m, hi)
  {
    ShuffledFrom(v, w, p, q);
    hide Shuffled;
    hide Leq;
    forall i, j | lo <= i < m <= j < hi ensures Leq(w[i].key, w[j].key) {
      var i', j' := i, j;
      if p <= i < q {
        i' := PlaceOf(v, p, q, w[i]);
      }
      if p <= j < q {
        j' := PlaceOf(v, p, q, w[j]);
      }
    }
  }

  lemma OrderedKept(v: seq<Pair>, w: seq<Pair>, p: int, q: int, lo: int, hi: int)
    requires Shuffled(v, w, p, q) && 0 <= lo <= hi <= |v| && (hi <= p || q <= lo) && Ordered(v, lo, hi)
    ensures Ordered(w, lo, hi)
  {
    ShuffledFrom(v, w, p, q);
    hide Shuffled;
    hide Leq;
  }

  lemma ReadyKept(v: seq<Pair>, w: seq<Pair>, p: int, q: int, lo: int, hi: int, digit: nat, bound: nat)
    requires Shuffled(v, w, p, q) && 0 <= lo <= hi <= |v| && (hi <= p || q <= lo) && Ready(v, lo, hi, digit, bound)
    ensures Ready(w, lo, hi, digit, bound)
  {
    ShuffledFrom(v, w, p, q);
    hide Shuffled;
    hide SamePrefix;
  }

  lemma OrderedJoin(v: seq<Pair>, lo: int, m: int, hi: int)
    requires 0 <= lo <= m <= hi <= |v| && Ordered(v, lo, m) && Ordered(v, m, hi) && Wall(v, lo, m, hi)
    ensures Ordered(v, lo, hi)
  {
    hide Leq;
  }

  lemma WallNarrow(v: seq<Pair>, lo: int, m: int, hi: int, lo': int, hi': int)
    requires 0 <= lo <= lo' <= m <= hi' <= hi <= |v| && Wall(v, lo, m, hi)
    ensures Wall(v, lo', m, hi')
  {
    hide Leq;
  }

  /** A wall inside a range between two walls is a wall of the whole. */
  lemma WallWiden(v: seq<Pair>, lo: int, p: int, m: int, q: int, hi: int)
    requires 0 <= lo <= p <= m <= q <= hi <= |v| && Wall(v, lo, p, hi) && Wall(v, lo, q, hi) && Wall(v, p, m, q)
    ensures Wall(v, lo, m, hi)
  {
    hide Leq;
  }

  // ---------- partition ----------

  /** Which of three positions has the middle character, by the comparisons of median. */
  function MedianIndex(v: seq<Pair>, first: nat, last: nat, digit: nat): (other: nat)
    requires first <= last < |v|
    ensures first <= other <= last
  {
    var mid := first + (last - first) / 2;
    var a, b, c := CharAt(v[first].key, digit), CharAt(v[mid].key, digit), CharAt(v[last].key, digit);
    if a > b then
      if b > c then mid else if a > c then last else first
    else
      if a > c then first else if b > c then last else mid
  }

  /** Two of the three characters are not above it, two not below. */
  lemma MedianIsMiddle(v: seq<Pair>, first: nat, last: nat, digit: nat)
    requires first <= last < |v|
    ensures
      var a, b, c := CharAt(v[first].key, digit), CharAt(v[first + (last - first) / 2].key, digit), CharAt(v[last].key, digit);
      var m := CharAt(v[MedianIndex(v, first, last, digit)].key, digit);
      && ((a <= m && b <= m) || (a <= m && c <= m) || (b <= m && c <= m))
      && ((a >= m && b >= m) || (a >= m && c >= m) || (b >= m && c >= m))
  {
  }

  /** Three parts by the character at digit. */
  ghost predicate Parted(v: seq<Pair>, lo: int, lt: int, ge: int, hi: int, digit: nat, pivot: int)
    requires 0 <= lo <= lt <= ge <= hi <= |v|
  {
    && (forall i :: lo <= i < lt ==> CharAt(v[i].key, digit) < pivot)
    && (forall i :: lt <= i < ge ==> CharAt(v[i].key, digit) == pivot)
    && (forall i :: ge <= i < hi ==> CharAt(v[i].key, digit) > pivot)
  }

  lemma PartedWalls(v: seq<Pair>, lo: int, lt: int, ge: int, hi: int, digit: nat, pivot: int, bound: nat)
    requires 0 <= lo <= lt <= ge <= hi <= |v| && Parted(v, lo, lt, ge, hi, digit, pivot) && Ready(v, lo, hi, digit, bound)
    requires AllTell(v, lo, hi)
    ensures Wall(v, lo, lt, hi) && Wall(v, lo, ge, hi)
  {
    forall i, j | lo <= i < hi && lo <= j < hi && CharAt(v[i].key, digit) < CharAt(v[j].key, digit) ensures Leq(v[i].key, v[j].key) {
      DigitDecides(v[i].key, v[j].key, digit);
      LessAntisymmetric(v[i].key, v[j].key);
    }
    hide Leq;
    hide CharAt;
    hide Ready;
    hide AllTell;
  }

  /** Equal characters that are not negative stand for equal bytes. */
  lemma OneMore(a: Key, b: Key, digit: nat)
    requires SamePrefix(a, b, digit) && CharAt(a, digit) == CharAt(b, digit) >= 0
    ensures SamePrefix(a, b, digit + 1)
  {
  }

  lemma PartedMiddle(v: seq<Pair>, lo: int, lt: int, ge: int, hi: int, digit: nat, pivot: int, bound: nat)
    requires 0 <= lo <= lt <= ge <= hi <= |v| && Parted(v, lo, lt, ge, hi, digit, pivot) && Ready(v, lo, hi, digit, bound)
    ensures pivot >= 0 ==> Ready(v, lt, ge, digit + 1, bound) && (lt < ge ==> digit < bound)
    ensures pivot < 0 && AllTell(v, lo, hi) ==> Ordered(v, lt, ge)
  {
    if pivot < 0 {
      if AllTell(v, lo, hi) {
        forall i, j | lt <= i < j < ge ensures Leq(v[i].key, v[j].key) {
          DigitDecides(v[i].key, v[j].key, digit);
          LessIrreflexive(v[i].key);
        }
      }
    } else {
      forall i, j | lt <= i < ge && lt <= j < ge ensures SamePrefix(v[i].key, v[j].key, digit + 1) {
        OneMore(v[i].key, v[j].key, digit);
      }
      forall i | lt <= i < ge ensures digit + 1 <= |v[i].key| <= bound {
        assert SamePrefix(v[i].key, v[i].key, digit + 1);
      }
      assert lt < ge ==> digit + 1 <= |v[lt].key| <= bound;
    }
    hide Leq;
    hide CharAt;
  }

  lemma ReadyNarrow(v: seq<Pair>, lo: int, hi: int, lo': int, hi': int, digit: nat, bound: nat)
    requires 0 <= lo <= lo' <= hi' <= hi <= |v| && Ready(v, lo, hi, digit, bound)
    ensures Ready(v, lo', hi', digit, bound)
  {
    hide SamePrefix;
  }

  lemma ShellStep(v: seq<Pair>, u: seq<Pair>, lo: nat, n: nat, hi: nat, j: nat, gap: nat, temp: Pair, digit: nat, bound: nat)
    requires gap > 0 && lo + gap <= j <= n < hi <= |u| && CompareLT(temp.key, u[j - gap].key, digit)
    requires Shuffled(v, Fill(u, j, temp), lo, hi) && Ready(Fill(u, j, temp), lo, hi, digit, bound)
    requires gap == 1 ==> Sinking(Fill(u, j, temp), lo, n + 1, j)
    ensures var w := Fill(Fill(u, j, u[j - gap]), j - gap, temp);
      && Shuffled(v, w, lo, hi) && Ready(w, lo, hi, digit, bound)
      && (gap == 1 ==> Sinking(w, lo, n + 1, j - 1))
  {
    hide Ready;
    hide Shuffled;
    hide Sinking;
    hide CompareLT;
    hide Swap;
    hide Fill;
    Filled(u, j, j - gap, temp);
    if gap == 1 {
      SinkOnce(v, Fill(u, j, temp), lo, n, hi, j, digit, bound);
    } else {
      SwapKeeps(v, Fill(u, j, temp), lo, hi, j, j - gap, digit, bound);
    }
  }

  lemma ShellEnd(u: seq<Pair>, lo: nat, n: nat, hi: nat, j: nat, temp: Pair, digit: nat, bound: nat)
    requires lo <= j <= n < hi <= |u| && Ready(Fill(u, j, temp), lo, hi, digit, bound) && Sinking(Fill(u, j, temp), lo, n + 1, j)
    requires j == lo || !CompareLT(temp.key, u[j - 1].key, digit)
    ensures Ordered(Fill(u, j, temp), lo, n + 1)
  {
    hide Ready;
    hide Swap;
    hide Sinking;
    hide Ordered;
    hide CompareLT;
    hide Fill;
    if j > lo {
      Filled(u, j, j - 1, temp);
      ReadyAt(Fill(u, j, temp), lo, hi, digit, bound, j, j - 1);
    }
    SinkEnd(Fill(u, j, temp), lo, n + 1, j);
  }

  lemma ShellStart(u: seq<Pair>, lo: nat, n: nat, gap: nat)
    requires lo <= n < |u| && (gap == 1 ==> Ordered(u, lo, n))
    ensures Fill(u, n, u[n]) == u && (gap == 1 ==> Sinking(u, lo, n + 1, n))
  {
  }

  // ---------- the recursion ----------

  /** The range from first to last is still open; the rest of lo to hi is in order around it, for keys that the
      digits tell apart. */
  ghost predicate Frame(v: seq<Pair>, w: seq<Pair>, lo: int, first: int, last: int, hi: int, digit: nat, bound: nat) {
    && 0 <= lo <= first <= last <= hi <= |w| && Shuffled(v, w, lo, hi) && Ready(w, first, last, digit, bound)
    && (AllTell(v, lo, hi) ==> Ordered(w, lo, first) && Ordered(w, last, hi) && Wall(w, lo, first, hi) && Wall(w, lo, last, hi))
  }

  /** The open range is cut in three; less, same and more say which parts are in order already. */
  ghost predicate Cut(v: seq<Pair>, w: seq<Pair>, lo: int, first: int, lt: int, ge: int, last: int, hi: int,
                      digit: nat, bound: nat, less: bool, same: bool, more: bool)
  {
    && 0 <= lo <= first <= lt < ge <= last <= hi <= |w| && Shuffled(v, w, lo, hi)
    && (AllTell(v, lo, hi) ==>
          && Ordered(w, lo, first) && Ordered(w, last, hi)
          && Wall(w, lo, first, hi) && Wall(w, lo, lt, hi) && Wall(w, lo, ge, hi) && Wall(w, lo, last, hi)
          && (less ==> Ordered(w, first, lt)) && (same ==> Ordered(w, lt, ge)) && (more ==> Ordered(w, ge, last)))
    && (!less ==> Ready(w, first, lt, digit, bound))
    && (!same ==> Ready(w, lt, ge, digit + 1, bound) && digit < bound)
    && (!more ==> Ready(w, ge, last, digit, bound))
  }

  lemma FrameStart(v: seq<Pair>, lo: int, hi: int, digit: nat, bound: nat)
    requires 0 <= lo <= hi <= |v| && Ready(v, lo, hi, digit, bound)
    ensures Frame(v, v, lo, lo, hi, hi, digit, bound)
  {
    hide Ready;
  }

  lemma FrameEnd(v: seq<Pair>, u: seq<Pair>, w: seq<Pair>, lo: int, first: int, last: int, hi: int, digit: nat, bound: nat)
    requires Frame(v, u, lo, first, last, hi, digit, bound) && Shuffled(u, w, first, last) && Ordered(w, first, last)
    ensures |w| == |v| && Shuffled(v, w, lo, hi) && (AllTell(v, lo, hi) ==> Ordered(w, lo, hi))
  {
    assert |w| == |u| == |v|;
    hide Ready;
    hide AllTell;
    hide Shuffled;
    hide Ordered;
    hide Wall;
    ShuffledWider(u, w, first, last, lo, hi);
    ShuffledTrans(v, u, w, lo, hi);
    if AllTell(v, lo, hi) {
      OrderedKept(u, w, first, last, lo, first);
      OrderedKept(u, w, first, last, last, hi);
      WallKept(u, w, first, last, lo, first, hi);
      WallKept(u, w, first, last, lo, last, hi);
      WallNarrow(w, lo, first, hi, lo, last);
      OrderedJoin(w, lo, first, last);
      OrderedJoin(w, lo, last, hi);
    }
  }

  lemma CutStart(v: seq<Pair>, u: seq<Pair>, w: seq<Pair>, lo: int, first: int, lt: int, ge: int, last: int, hi: int,
                 digit: nat, bound: nat, pivot: int)
    requires Frame(v, u, lo, first, last, hi, digit, bound) && Shuffled(u, w, first, last) && |w| == |u|
    requires first <= lt < ge <= last && Ready(w, first, last, digit, bound) && Parted(w, first, lt, ge, last, digit, pivot)
    ensures Cut(v, w, lo, first, lt, ge, last, hi, digit, bound, false, pivot < 0, false)
  {
    hide Ready;
    hide Shuffled;
    hide Ordered;
    hide Wall;
    hide Parted;
    hide AllTell;
    ShuffledWider(u, w, first, last, lo, hi);
    ShuffledTrans(v, u, w, lo, hi);
    if AllTell(v, lo, hi) {
      TellKept(v, w, lo, hi, first, last);
      OrderedKept(u, w, first, last, lo, first);
      OrderedKept(u, w, first, last, last, hi);
      WallKept(u, w, first, last, lo, first, hi);
      WallKept(u, w, first, last, lo, last, hi);
      PartedWalls(w, first, lt, ge, last, digit, pivot, bound);
      WallWiden(w, lo, first, lt, last, hi);
      WallWiden(w, lo, first, ge, last, hi);
    }
    PartedMiddle(w, first, lt, ge, last, digit, pivot, bound);
    ReadyNarrow(w, first, last, first, lt, digit, bound);
    ReadyNarrow(w, first, last, ge, last, digit, bound);
  }

  /** What sorting one part leaves of the others. */
  lemma PartKept(u: seq<Pair>, w: seq<Pair>, p: int, q: int, x: int, y: int, sorted: bool, good: bool, digit: nat, bound: nat)
    requires Shuffled(u, w, p, q) && 0 <= x <= y <= |u| && (y <= p || q <= x)
    requires if sorted then good ==> Ordered(u, x, y) else Ready(u, x, y, digit, bound)
    ensures |w| == |u| && if sorted then good ==> Ordered(w, x, y) else Ready(w, x, y, digit, bound)
  {
    assert |w| == |u|;
    if !sorted {
      ReadyKept(u, w, p, q, x, y, digit, bound);
    } else if good {
      OrderedKept(u, w, p, q, x, y);
    }
    hide *;
  }

  /** The walls and the outer parts while part p to q changes. */
  lemma CutAround(v: seq<Pair>, u: seq<Pair>, w: seq<Pair>, lo: int, first: int, lt: int, ge: int, last: int, hi: int, p: int, q: int)
    requires 0 <= lo <= first <= lt < ge <= last <= hi <= |u| && Shuffled(u, w, p, q) && |w| == |u|
    requires (p == first && q == lt) || (p == lt && q == ge) || (p == ge && q == last)
    requires Ordered(u, lo, first) && Ordered(u, last, hi)
    requires Wall(u, lo, first, hi) && Wall(u, lo, lt, hi) && Wall(u, lo, ge, hi) && Wall(u, lo, last, hi)
    ensures Ordered(w, lo, first) && Ordered(w, last, hi)
    ensures Wall(w, lo, first, hi) && Wall(w, lo, lt, hi) && Wall(w, lo, ge, hi) && Wall(w, lo, last, hi)
  {
    hide Shuffled;
    hide Ordered;
    hide Wall;
    OrderedKept(u, w, p, q, lo, first);
    OrderedKept(u, w, p, q, last, hi);
    WallKept(u, w, p, q, lo, first, hi);
    WallKept(u, w, p, q, lo, lt, hi);
    WallKept(u, w, p, q, lo, ge, hi);
    WallKept(u, w, p, q, lo, last, hi);
  }

  /** Part 0, 1 or 2 of the cut has been sorted. */
  lemma CutSorted(v: seq<Pair>, u: seq<Pair>, w: seq<Pair>, lo: int, first: int, lt: int, ge: int, last: int, hi: int,
                  digit: nat, bound: nat, less: bool, same: bool, more: bool, part: int)
    requires Cut(v, u, lo, first, lt, ge, last, hi, digit, bound, less, same, more) && 0 <= part < 3
    requires
      var p := if part == 0 then first else if part == 1 then lt else ge;
      var q := if part == 0 then lt else if part == 1 then ge else last;
      Shuffled(u, w, p, q) && |w| == |u| && (AllTell(u, p, q) ==> Ordered(w, p, q))
    ensures Cut(v, w, lo, first, lt, ge, last, hi, digit, bound, less || part == 0, same || part == 1, more || part == 2)
  {
    hide Ready;
    hide AllTell;
    hide Shuffled;
    hide Ordered;
    hide Wall;
    var p, q := if part == 0 then first else if part == 1 then lt else ge, if part == 0 then lt else if part == 1 then ge else last;
    ShuffledWider(u, w, p, q, lo, hi);
    ShuffledTrans(v, u, w, lo, hi);
    var good := AllTell(v, lo, hi);
    if good {
      TellKept(v, u, lo, hi, p, q);
      CutAround(v, u, w, lo, first, lt, ge, last, hi, p, q);
    }
    if part != 0 {
      PartKept(u, w, p, q, first, lt, less, good, digit, bound);
    }
    if part != 1 {
      PartKept(u, w, p, q, lt, ge, same, good, digit + 1, bound);
    }
    if part != 2 {
      PartKept(u, w, p, q, ge, last, more, good, digit, bound);
    }
  }

  lemma CutToLess(v: seq<Pair>, w: seq<Pair>, lo: int, first: int, lt: int, ge: int, last: int, hi: int, digit: nat, bound: nat)
    requires Cut(v, w, lo, first, lt, ge, last, hi, digit, bound, false, true, true)
    ensures Frame(v, w, lo, first, lt, hi, digit, bound)
  {
    assert |w| == |v|;
    hide Ready;
    hide Shuffled;
    hide Ordered;
    hide Wall;
    hide AllTell;
    if AllTell(v, lo, hi) {
      WallNarrow(w, lo, ge, hi, lt, last);
      OrderedJoin(w, lt, ge, last);
      WallNarrow(w, lo, last, hi, lt, hi);
      OrderedJoin(w, lt, last, hi);
    }
  }

  lemma CutToSame(v: seq<Pair>, w: seq<Pair>, lo: int, first: int, lt: int, ge: int, last: int, hi: int, digit: nat, bound: nat, same: bool)
    requires Cut(v, w, lo, first, lt, ge, last, hi, digit, bound, true, same, true)
    ensures |w| == |v|
    ensures if same then Shuffled(v, w, lo, hi) && (AllTell(v, lo, hi) ==> Ordered(w, lo, hi)) else Frame(v, w, lo, lt, ge, hi, digit + 1, bound) && digit < bound
  {
    assert |w| == |v|;
    hide Ready;
    hide Shuffled;
    hide Ordered;
    hide Wall;
    hide AllTell;
    if AllTell(v, lo, hi) {
      WallNarrow(w, lo, first, hi, lo, lt);
      OrderedJoin(w, lo, first, lt);
      WallNarrow(w, lo, last, hi, ge, hi);
      OrderedJoin(w, ge, last, hi);
      if same {
        WallNarrow(w, lo, lt, hi, lo, ge);
        OrderedJoin(w, lo, lt, ge);
        OrderedJoin(w, lo, ge, hi);
      }
    }
  }

  lemma CutToMore(v: seq<Pair>, w: seq<Pair>, lo: int, first: int, lt: int, ge: int, last: int, hi: int, digit: nat, bound: nat)
    requires Cut(v, w, lo, first, lt, ge, last, hi, digit, bound, true, true, false)
    ensures Frame(v, w, lo, ge, last, hi, digit, bound)
  {
    assert |w| == |v|;
    hide Ready;
    hide Shuffled;
    hide Ordered;
    hide Wall;
    hide AllTell;
    if AllTell(v, lo, hi) {
      WallNarrow(w, lo, first, hi, lo, lt);
      OrderedJoin(w, lo, first, lt);
      WallNarrow(w, lo, lt, hi, lo, ge);
      OrderedJoin(w, lo, lt, ge);
    }
  }

  // ---------- unique ----------

  /** Taken from v, and for every pair of v one of its key that is as new. */
  ghost predicate OneEach(v: seq<Pair>, out: seq<Pair>) {
    && (forall i :: 0 <= i < |out| ==> out[i] in v)
    && (forall x :: x in v ==> Covered(x, out))
  }

  lemma UniqueStart(v: seq<Pair>)
    requires |v| > 0
    ensures OneEach(v[..1], v[..1])
  {
    assert v[..1][0] == v[0];
  }

  lemma UniqueNone()
    ensures OneEach([], [])
  {
  }

  lemma OrderedNext(v: seq<Pair>, i: nat)
    requires 0 < i < |v| && Ordered(v, 0, |v|)
    ensures Leq(v[i - 1].key, v[i].key)
  {
  }

  lemma SortedStart(v: seq<Pair>)
    ensures Sorted([]) && (|v| > 0 ==> Sorted(v[..1]))
  {
  }

  lemma OneEachSelf(v: seq<Pair>)
    ensures OneEach(v, v)
  {
  }

  lemma OneEachPerm(v: seq<Pair>, w: seq<Pair>, out: seq<Pair>)
    requires OneEach(w, out) && Shuffled(v, w, 0, |v|)
    ensures OneEach(v, out)
  {
    SameMembers(v, w);
    hide Shuffled;
  }

  lemma SameMembers(v: seq<Pair>, w: seq<Pair>)
    requires multiset(v) == multiset(w)
    ensures forall x :: x in v <==> x in w
  {
    forall x ensures x in v <==> x in w {
      assert x in multiset(v) <==> x in multiset(w);
    }
  }

  lemma SortedNext(out: seq<Pair>, x: Pair)
    requires Sorted(out) && (out == [] || Less(out[|out| - 1].key, x.key))
    ensures Sorted(out + [x])
  {
    hide Less;
    var n := |out| - 1;
    forall i | 0 <= i <= n ensures Less(out[i].key, x.key) {
      if i < n {
        LessTransitive(out[i].key, out[n].key, x.key);
      }
    }
  }

  lemma SortedReplace(out: seq<Pair>, x: Pair)
    requires Sorted(out) && |out| > 0 && out[|out| - 1].key == x.key
    ensures Sorted(out[..|out| - 1] + [x])
  {
    hide Less;
  }

  ghost predicate Covered(x: Pair, out: seq<Pair>) {
    exists i :: 0 <= i < |out| && out[i].key == x.key && x.created <= out[i].created
  }

  lemma CoveredNext(y: Pair, out: seq<Pair>, x: Pair)
    requires Covered(y, out)
    ensures Covered(y, out + [x])
  {
    var i :| 0 <= i < |out| && out[i].key == y.key && y.created <= out[i].created;
    assert (out + [x])[i] == out[i];
  }

  lemma CoveredReplace(y: Pair, out: seq<Pair>, x: Pair)
    requires Covered(y, out) && |out| > 0 && out[|out| - 1].key == x.key && out[|out| - 1].created <= x.created
    ensures Covered(y, out[..|out| - 1] + [x])
  {
    var i :| 0 <= i < |out| && out[i].key == y.key && y.created <= out[i].created;
    var w := out[..|out| - 1] + [x];
    assert i < |out| - 1 ==> w[i] == out[i];
    assert w[|out| - 1] == x;
  }

  /** The three things that can happen to the next pair. */
  lemma UniqueStep(v: seq<Pair>, out: seq<Pair>, x: Pair)
    requires OneEach(v, out) && |out| > 0
    ensures var n := |out| - 1;
      && (out[n].key != x.key ==> OneEach(v + [x], out + [x]))
      && (out[n].key == x.key && out[n].created < x.created ==> OneEach(v + [x], out[..n] + [x]))
      && (out[n].key == x.key && out[n].created >= x.created ==> OneEach(v + [x], out))
  {
    var n := |out| - 1;
    if out[n].key != x.key {
      forall y | y in v + [x] ensures Covered(y, out + [x]) {
        if y in v {
          CoveredNext(y, out, x);
        } else {
          assert (out + [x])[n + 1] == x;
        }
      }
    } else if out[n].created < x.created {
      var w := out[..n] + [x];
      forall i | 0 <= i < |w| ensures w[i] in v + [x] {
        assert i < n ==> w[i] == out[i];
      }
      forall y | y in v + [x] ensures Covered(y, out[..n] + [x]) {
        if y in v {
          CoveredReplace(y, out, x);
        } else {
          assert (out[..n] + [x])[n] == x;
        }
      }
    } else {
      assert Covered(x, out);
    }
  }

  /** The same three things keep the order. */
  lemma UniqueOrder(out: seq<Pair>, x: Pair)
    requires Sorted(out) && |out| > 0 && Leq(out[|out| - 1].key, x.key)
    ensures Sorted(if out[|out| - 1].key != x.key then out + [x] else out[..|out| - 1] + [x])
  {
    hide Less;
    hide Sorted;
    LessTotal(out[|out| - 1].key, x.key);
    if out[|out| - 1].key != x.key {
      SortedNext(out, x);
    } else {
      SortedReplace(out, x);
    }
  }

  /** The pairs that stand for the first ones of v, after one more. */
  function Kept(out: seq<Pair>, x: Pair): seq<Pair>
    requires out != []
  {
    var n := |out| - 1;
    if out[n].key != x.key then out + [x] else if out[n].created < x.created then out[..n] + [x] else out
  }

  lemma UniqueRound(v: seq<Pair>, first: nat, out: seq<Pair>)
    requires 0 < first < |v| && out != [] && OneEach(v[..first], out) && out[|out| - 1].key == v[first - 1].key
    ensures OneEach(v[..first + 1], Kept(out, v[first]))
    ensures Ordered(v, 0, |v|) && Sorted(out) ==> Sorted(Kept(out, v[first]))
  {
    hide OneEach;
    hide Sorted;
    hide Ordered;
    hide Leq;
    UniqueStep(v[..first], out, v[first]);
    assert v[..first + 1] == v[..first] + [v[first]];
    if Ordered(v, 0, |v|) && Sorted(out) {
      OrderedNext(v, first);
      UniqueOrder(out, v[first]);
    }
  }

  /** The longest key. */
  ghost function Longest(v: seq<Pair>): (b: nat)
    ensures forall i :: 0 <= i < |v| ==> |v[i].key| <= b
  {
    if v == [] then 0 else
      var b, n := Longest(v[..|v| - 1]), |v[|v| - 1].key|;
      if b < n then n else b
  }

  const MIN_CUTOFF_DEEP: nat := 16

  class UnsortedList {
    var vector: seq<Pair>
    var needSort: bool

    // ---------- small ranges ----------

    method CompareSwap(lo: nat, hi: nat, i: nat, digit: nat, ghost v: seq<Pair>, ghost bound: nat)
      requires lo <= i && i + 1 < hi <= |vector| && Ready(vector, lo, hi, digit, bound) && Shuffled(v, vector, lo, hi)
      modifies this`vector
      ensures |vector| == old(|vector|) && Ready(vector, lo, hi, digit, bound) && Shuffled(v, vector, lo, hi)
      ensures Leq(vector[i].key, vector[i + 1].key)
      ensures
        || (vector[i] == old(vector)[i] && vector[i + 1] == old(vector)[i + 1])
        || (vector[i] == old(vector)[i + 1] && vector[i + 1] == old(vector)[i])
      ensures forall k :: 0 <= k < |vector| && k != i && k != i + 1 ==> vector[k] == old(vector)[k]
    {
      hide Ready;
      hide Shuffled;
      hide CompareLT;
      ReadyAt(vector, lo, hi, digit, bound, i + 1, i);
      if CompareLT(vector[i + 1].key, vector[i].key, digit) {
        LessAntisymmetric(vector[i + 1].key, vector[i].key);
        SwapKeeps(v, vector, lo, hi, i, i + 1, digit, bound);
        SwapAt(vector, i, i + 1);
        hide Swap;
        vector := Swap(vector, i, i + 1);
      }
    }

    method Super2Sort(lo: nat, digit: nat, ghost bound: nat)
      requires lo + 2 <= |vector| && Ready(vector, lo, lo + 2, digit, bound)
      modifies this`vector
      ensures Shuffled(old(vector), vector, lo, lo + 2) && Ordered(vector, lo, lo + 2)
    {
      hide Ready;
      hide Shuffled;
      ghost var v := vector;
      ShuffledSelf(v, lo, lo + 2);
      CompareSwap(lo, lo + 2, lo, digit, v, bound);
    }

    method Super3Sort(lo: nat, digit: nat, ghost bound: nat)
      requires lo + 3 <= |vector| && Ready(vector, lo, lo + 3, digit, bound)
      modifies this`vector
      ensures Shuffled(old(vector), vector, lo, lo + 3) && Ordered(vector, lo, lo + 3)
    {
      hide Ready;
      hide Shuffled;
      hide CompareLT;
      hide Leq;
      ghost var v := vector;
      ShuffledSelf(v, lo, lo + 3);
      CompareSwap(lo, lo + 3, lo, digit, v, bound);
      ghost var x, y, z := vector[lo].key, vector[lo + 1].key, vector[lo + 2].key;
      CompareSwap(lo, lo + 3, lo + 1, digit, v, bound);
      if vector[lo + 2].key == z {
        LeqTransitive(x, y, z);
      }
      CompareSwap(lo, lo + 3, lo, digit, v, bound);
    }

    method InsertionSort(lo: nat, hi: nat, digit: nat, ghost bound: nat)
      requires lo <= hi <= |vector| && Ready(vector, lo, hi, digit, bound)
      modifies this`vector
      ensures Shuffled(old(vector), vector, lo, hi) && Ordered(vector, lo, hi)
    {
      hide Ready;
      hide Shuffled;
      ghost var v := vector;
      ShuffledSelf(v, lo, hi);
      for n := lo to hi
        invariant |vector| == |v| && Shuffled(v, vector, lo, hi) && Ordered(vector, lo, n) && Ready(vector, lo, hi, digit, bound)
      {
        Sink(lo, n, hi, digit, v, bound);
      }
    }

    method Sink(lo: nat, n: nat, hi: nat, digit: nat, ghost v: seq<Pair>, ghost bound: nat)
      requires lo <= n < hi <= |vector| && Shuffled(v, vector, lo, hi) && Ready(vector, lo, hi, digit, bound) && Ordered(vector, lo, n)
      modifies this`vector
      ensures |vector| == old(|vector|) && Shuffled(v, vector, lo, hi) && Ready(vector, lo, hi, digit, bound) && Ordered(vector, lo, n + 1)
    {
      hide Ready;
      hide Shuffled;
      hide Sinking;
      hide CompareLT;
      hide Swap;
      hide Ordered;
      var j := n;
      ShellStart(vector, lo, n, 1);
      while j > lo && CompareLT(vector[j].key, vector[j - 1].key, digit)
        invariant lo <= j <= n && |vector| == old(|vector|) && Shuffled(v, vector, lo, hi)
        invariant Ready(vector, lo, hi, digit, bound) && Sinking(vector, lo, n + 1, j)
      {
        SinkOnce(v, vector, lo, n, hi, j, digit, bound);
        vector := Swap(vector, j, j - 1);
        j := j - 1;
      }
      if j > lo {
        ReadyAt(vector, lo, hi, digit, bound, j, j - 1);
      }
      SinkEnd(vector, lo, n + 1, j);
    }

    // ---------- shell sort ----------

    /** One element of a pass: it moves down in steps of gap while the others move up into the hole. */
    method ShellSink(lo: nat, n: nat, hi: nat, gap: nat, digit: nat, ghost v: seq<Pair>, ghost bound: nat)
      requires gap > 0 && lo + gap <= n < hi <= |vector| && Shuffled(v, vector, lo, hi) && Ready(vector, lo, hi, digit, bound)
      requires gap == 1 ==> Ordered(vector, lo, n)
      modifies this`vector
      ensures |vector| == old(|vector|) && Shuffled(v, vector, lo, hi) && Ready(vector, lo, hi, digit, bound)
      ensures gap == 1 ==> Ordered(vector, lo, n + 1)
    {
      hide Ready;
      hide Shuffled;
      hide Sinking;
      hide CompareLT;
      hide Fill;
      hide Ordered;
      var j := n;
      var temp := vector[j];
      ShellStart(vector, lo, n, gap);
      while j >= lo + gap && CompareLT(temp.key, vector[j - gap].key, digit)
        invariant lo <= j <= n && |vector| == old(|vector|) && Shuffled(v, Fill(vector, j, temp), lo, hi)
        invariant Ready(Fill(vector, j, temp), lo, hi, digit, bound) && (gap == 1 ==> Sinking(Fill(vector, j, temp), lo, n + 1, j))
      {
        ShellStep(v, vector, lo, n, hi, j, gap, temp, digit, bound);
        vector := Fill(vector, j, vector[j - gap]);
        j := j - gap;
      }
      if gap == 1 {
        ShellEnd(vector, lo, n, hi, j, temp, digit, bound);
      }
      vector := Fill(vector, j, temp);
    }

    method ShellSort(lo: nat, hi: nat, digit: nat, ghost bound: nat)
      requires lo <= hi <= |vector| && Ready(vector, lo, hi, digit, bound)
      modifies this`vector
      ensures Shuffled(old(vector), vector, lo, hi) && Ordered(vector, lo, hi)
    {
      hide Ready;
      hide Shuffled;
      ghost var v := vector;
      ShuffledSelf(v, lo, hi);
      var gap := (hi - lo) / 2;
      while gap > 0
        invariant 0 <= gap <= hi - lo && |vector| == |v| && Shuffled(v, vector, lo, hi) && Ready(vector, lo, hi, digit, bound)
        invariant gap == 0 ==> Ordered(vector, lo, hi)
      {
        for n := lo + gap to hi
          invariant |vector| == |v| && Shuffled(v, vector, lo, hi) && Ready(vector, lo, hi, digit, bound)
          invariant gap == 1 ==> Ordered(vector, lo, n)
        {
          ShellSink(lo, n, hi, gap, digit, v, bound);
        }
        gap := gap / 2;
      }
    }

    // ---------- three-way partition ----------

    /** The median of the first, middle and last character comes to the front. */
    method Median(first: nat, last: nat, lo: nat, hi: nat, digit: nat, ghost v: seq<Pair>)
      requires lo <= first <= last < hi <= |vector| && Shuffled(v, vector, lo, hi)
      modifies this`vector
      ensures |vector| == old(|vector|) && Shuffled(v, vector, lo, hi)
      ensures vector == Swap(old(vector), first, MedianIndex(old(vector), first, last, digit))
    {
      hide Shuffled;
      hide Swap;
      hide MedianIndex;
      var other := MedianIndex(vector, first, last, digit);
      SwapTrans(v, vector, lo, hi, first, other);
      vector := Swap(vector, first, other);
    }

    /** The partition loop around the first pair of the range. */
    method Partition(lo: nat, hi: nat, digit: nat, ghost v: seq<Pair>) returns (lt: nat, ge: nat, pivot: int)
      requires lo < hi <= |vector| && Shuffled(v, vector, lo, hi)
      modifies this`vector
      ensures |vector| == old(|vector|) && Shuffled(v, vector, lo, hi)
      ensures lo <= lt < ge <= hi && Parted(vector, lo, lt, ge, hi, digit, pivot) && pivot == CharAt(old(vector)[lo].key, digit)
    {
      hide Shuffled;
      hide CharAt;
      hide Swap;
      lt, ge := lo, hi;
      var it := lo + 1;
      pivot := CharAt(vector[lt].key, digit);
      while it < ge
        invariant lo <= lt < it <= ge <= hi && |vector| == old(|vector|)
        invariant Shuffled(v, vector, lo, hi)
        invariant forall i :: lo <= i < lt ==> CharAt(vector[i].key, digit) < pivot
        invariant forall i :: lt <= i < it ==> CharAt(vector[i].key, digit) == pivot
        invariant forall i :: ge <= i < hi ==> CharAt(vector[i].key, digit) > pivot
        decreases ge - it
      {
        var t := CharAt(vector[it].key, digit);
        if t < pivot {
          SwapTrans(v, vector, lo, hi, lt, it);
          SwapAt(vector, lt, it);
          vector := Swap(vector, lt, it);
          lt, it := lt + 1, it + 1;
        } else if t > pivot {
          ge := ge - 1;
          SwapTrans(v, vector, lo, hi, it, ge);
          SwapAt(vector, it, ge);
          vector := Swap(vector, it, ge);
        } else {
          it := it + 1;
        }
      }
    }

    // ---------- sort ----------

    method SmallSort(lo: nat, hi: nat, digit: nat, ghost bound: nat)
      requires lo <= hi <= |vector| && hi - lo <= 6 && Ready(vector, lo, hi, digit, bound)
      modifies this`vector
      ensures |vector| == old(|vector|) && Shuffled(old(vector), vector, lo, hi) && Ordered(vector, lo, hi)
    {
      if hi - lo <= 1 {
        ShuffledSelf(vector, lo, hi);
      } else if hi - lo == 2 {
        Super2Sort(lo, digit, bound);
      } else if hi - lo == 3 {
        Super3Sort(lo, digit, bound);
      } else {
        InsertionSort(lo, hi, digit, bound);
      }
    }

    /** Sorting one of the three parts of a cut, at most half of it, so that the recursion is never deep. */
    method SortPart(part: nat, lo: nat, first: nat, lt: nat, ge: nat, last: nat, hi: nat, digit: nat, deep: nat, cutoff: nat,
                    ghost v: seq<Pair>, ghost bound: nat, ghost less: bool, ghost same: bool, ghost more: bool)
      requires Cut(v, vector, lo, first, lt, ge, last, hi, digit, bound, less, same, more) && part < 3
      requires if part == 0 then !less else if part == 1 then !same else !more
      requires 2 * (if part == 0 then lt - first else if part == 1 then ge - lt else last - ge) <= last - first
      modifies this`vector
      ensures |vector| == old(|vector|)
      ensures Cut(v, vector, lo, first, lt, ge, last, hi, digit, bound, less || part == 0, same || part == 1, more || part == 2)
      decreases if part == 0 then lt - first else if part == 1 then ge - lt else last - ge, 3
    {
      hide Shuffled;
      hide Ready;
      hide Ordered;
      hide Wall;
      hide AllTell;
      var p, q := if part == 0 then first else if part == 1 then lt else ge, if part == 0 then lt else if part == 1 then ge else last;
      ghost var u := vector;
      Sort(p, q, if part == 1 then digit + 1 else digit, deep, cutoff, bound);
      CutSorted(v, u, vector, lo, first, lt, ge, last, hi, digit, bound, less, same, more, part);
    }

    /** The switch on the largest of the three parts. */
    method Descend(lo: nat, first: nat, lt: nat, ge: nat, last: nat, hi: nat, digit: nat, deep: nat, cutoff: nat, pivot: int,
                   ghost v: seq<Pair>, ghost bound: nat) returns (done: bool, first': nat, last': nat, digit': nat)
      requires Cut(v, vector, lo, first, lt, ge, last, hi, digit, bound, false, pivot < 0, false)
      modifies this`vector
      ensures |vector| == old(|vector|)
      ensures done ==> lo <= hi <= |vector| == |v| && Shuffled(v, vector, lo, hi) && (AllTell(v, lo, hi) ==> Ordered(vector, lo, hi))
      ensures !done ==> lo <= first' <= last' <= hi && Frame(v, vector, lo, first', last', hi, digit', bound)
      ensures !done ==> last' - first' < last - first || (last' - first' == last - first && digit < digit' <= bound)
      decreases last - first, 1
    {
      assert lo <= first <= lt < ge <= last <= hi <= |vector| && first <= lt;
      hide Cut;
      hide Frame;
      hide Shuffled;
      hide Ordered;
      hide AllTell;
      done, first', last', digit' := false, first, last, digit;
      var a, b, c := lt - first, ge - lt, last - ge;
      if a > b && a > c {
        if pivot >= 0 {
          SortPart(1, lo, first, lt, ge, last, hi, digit, deep, cutoff, v, bound, false, false, false);
        }
        SortPart(2, lo, first, lt, ge, last, hi, digit, deep, cutoff, v, bound, false, true, false);
        CutToLess(v, vector, lo, first, lt, ge, last, hi, digit, bound);
        last' := lt;
      } else if a <= b && b > c {
        SortPart(0, lo, first, lt, ge, last, hi, digit, deep, cutoff, v, bound, false, pivot < 0, false);
        SortPart(2, lo, first, lt, ge, last, hi, digit, deep, cutoff, v, bound, true, pivot < 0, false);
        CutToSame(v, vector, lo, first, lt, ge, last, hi, digit, bound, pivot < 0);
        if pivot >= 0 {
          first', last', digit' := lt, ge, digit + 1;
        } else {
          done := true;
        }
      } else {
        SortPart(0, lo, first, lt, ge, last, hi, digit, deep, cutoff, v, bound, false, pivot < 0, false);
        if pivot >= 0 {
          SortPart(1, lo, first, lt, ge, last, hi, digit, deep, cutoff, v, bound, true, false, false);
        }
        CutToMore(v, vector, lo, first, lt, ge, last, hi, digit, bound);
        first' := ge;
      }
    }

    /** The three-way radix quicksort. Recursion handles the two smaller parts, the loop goes on with the
        largest, and beyond the depth limit a shell sort takes over. It keeps the pairs of any keys, and orders
        the ones that the digits tell apart. */
    method Sort(lo: nat, hi: nat, digit: nat, deep: nat, cutoff: nat, ghost bound: nat)
      requires lo <= hi <= |vector| && Ready(vector, lo, hi, digit, bound)
      modifies this`vector
      ensures |vector| == old(|vector|) && Shuffled(old(vector), vector, lo, hi)
      ensures AllTell(old(vector), lo, hi) ==> Ordered(vector, lo, hi)
      decreases hi - lo, 2
    {
      hide Shuffled;
      hide Ready;
      hide Ordered;
      hide Wall;
      hide Cut;
      hide Parted;
      hide AllTell;
      ghost var v := vector;
      var first, last, digit, deep := lo, hi, digit, deep + 1;
      FrameStart(v, lo, hi, digit, bound);
      while true
        invariant |vector| == |v| && lo <= first <= last <= hi && Frame(v, vector, lo, first, last, hi, digit, bound)
        decreases last - first, bound - digit
      {
        ghost var u := vector;
        if last - first <= 6 {
          SmallSort(first, last, digit, bound);
          FrameEnd(v, u, vector, lo, first, last, hi, digit, bound);
          return;
        }
        if deep > cutoff {
          ShellSort(first, last, digit, bound);
          FrameEnd(v, u, vector, lo, first, last, hi, digit, bound);
          return;
        }
        ShuffledSelf(u, first, last);
        Median(first, last - 1, first, last, digit, u);
        var lt, ge, pivot := Partition(first, last, digit, u);
        ShuffledReady(u, vector, first, last, digit, bound);
        CutStart(v, u, vector, lo, first, lt, ge, last, hi, digit, bound, pivot);
        var done;
        done, first, last, digit := Descend(lo, first, lt, ge, last, hi, digit, deep, cutoff, pivot, v, bound);
        if done {
          return;
        }
      }
    }

    // ---------- prepareFlush ----------

    ghost predicate Valid()
      reads this
    {
      needSort || Sorted(vector)
    }

    constructor ()
      ensures Valid() && vector == [] && !needSort
    {
      vector, needSort := [], false;
    }

    /** insertF appends; an invalid factory gets the same answer as a full allocator. */
    method InsertF(f: Factory, env: Env) returns (st: Status)
      requires Valid()
      modifies this
      ensures Valid() && st == if f.IsValid() && env.memory then Inserted else ErrorNoMemory
      ensures
        if f.IsValid() && env.memory then
          |vector| == old(|vector|) + 1 && vector[..old(|vector|)] == old(vector) && Carries(vector[old(|vector|)], f, env.now, None)
        else vector == old(vector)
    {
      if !f.IsValid() || !env.memory {
        return ErrorNoMemory;
      }
      vector, needSort := vector + [f.Create(env.now)], true;
      return Inserted;
    }

    /** special_unique: of equal neighbours the first of the newest is swapped to the front; returns how many
        remain. No key loses its newest pair, and in an ordered vector each key keeps one. */
    method SpecialUnique() returns (n: nat)
      modifies this`vector
      ensures n <= |vector| && OneEach(old(vector), vector[..n])
      ensures Ordered(old(vector), 0, |old(vector)|) ==> Sorted(vector[..n])
    {
      hide Ordered;
      hide OneEach;
      hide Sorted;
      hide Leq;
      ghost var v := vector;
      ghost var good := Ordered(v, 0, |v|);
      SortedStart(v);
      if |vector| == 0 {
        UniqueNone();
        return 0;
      }
      var result := 0;
      UniqueStart(v);
      for first := 1 to |vector|
        invariant 0 <= result < first && |vector| == |v|
        invariant forall k :: first <= k < |v| ==> vector[k] == v[k]
        invariant OneEach(v[..first], vector[..result + 1]) && vector[result].key == v[first - 1].key
        invariant good ==> Sorted(vector[..result + 1])
      {
        UniqueRound(v, first, vector[..result + 1]);
        assert vector[..result + 1][..result] == vector[..result];
        result := UniqueOne(result, first);
      }
      assert v[..|v|] == v;
      return result + 1;
    }

    /** One round of special_unique. */
    method UniqueOne(at: nat, first: nat) returns (result: nat)
      requires at < first < |vector|
      modifies this`vector
      ensures |vector| == old(|vector|) && result <= first && forall k :: first < k < |vector| ==> vector[k] == old(vector)[k]
      ensures vector[result].key == old(vector)[first].key
      ensures vector[..result + 1] == Kept(old(vector)[..at + 1], old(vector)[first])
    {
      result := at;
      if vector[result].key != vector[first].key {
        result := result + 1;
        if result != first {
          vector := vector[result := vector[first]];
        }
      } else if vector[result].created < vector[first].created {
        vector := vector[result := vector[first]][first := vector[result]];
      }
    }

    /** prepareFlush keeps for each key a pair with the latest creation time, whatever the keys are, and leaves one
        pair for each key, in key order, if the list was in order or the digits tell the keys apart. */
    method PrepareFlush()
      requires Valid()
      modifies this
      ensures !needSort && OneEach(old(vector), vector)
      ensures !old(needSort) || AllTell(old(vector), 0, |old(vector)|) ==> Valid() && Sorted(vector)
    {
      hide AllTell;
      hide Ordered;
      if !needSort {
        OneEachSelf(vector);
        return;
      }
      ghost var v := vector;
      ghost var bound := Longest(v);
      assert Ready(v, 0, |v|, 0, bound);
      Sort(0, |vector|, 0, 0, MIN_CUTOFF_DEEP, bound);
      ghost var w := vector;
      var n := SpecialUnique();
      vector := vector[..n];
      needSort := false;
      OneEachPerm(v, w, vector);
    }
  }

  /** Characters below and above the pivot end on different sides of it. */
  lemma PartsByCharacter(v: seq<Pair>, lo: int, lt: int, ge: int, hi: int, digit: nat, pivot: int, i: int, j: int)
    requires 0 <= lo <= lt <= ge <= hi <= |v| && Parted(v, lo, lt, ge, hi, digit, pivot) && lo <= i < hi && lo <= j < hi
    requires CharAt(v[i].key, digit) < pivot < CharAt(v[j].key, digit)
    ensures i < lt <= ge <= j
  {
  }

  function Single(b: Byte): Pair { Pair([b], [], 0, 0) }

  function Seven(): seq<Pair> {
    [Single(100), Single(1), Single(2), Single(200), Single(3), Single(4), Single(5)]
  }

  lemma SevenMembers(w: seq<Pair>) returns (i: nat, j: nat)
    requires multiset(w) == multiset(Seven())
    ensures i < |w| && j < |w| && w[i] == Single(200) && w[j] == Single(100)
  {
    SameMembers(w, Seven());
    assert Seven()[3] == Single(200) && Seven()[0] == Single(100);
    i :| 0 <= i < |w| && w[i] == Single(200);
    j :| 0 <= j < |w| && w[j] == Single(100);
  }

  /** Seven keys, one of them with a byte above 127: the first partition puts it in front of a smaller key, into
      another part, where no later step brings them together again. */
  method WrongSide() returns (list: UnsortedList, ghost m: nat, ghost i: nat, ghost j: nat)
    ensures |list.vector| == 7 && multiset(list.vector) == multiset(Seven()) && i < m <= j < 7
    ensures Less(list.vector[j].key, list.vector[i].key)
  {
    list := new UnsortedList();
    list.vector := Seven();
    ShuffledSelf(Seven(), 0, 7);
    SevenPivot();
    list.Median(0, 6, 0, 7, 0, Seven());
    var lt, ge, pivot := list.Partition(0, 7, 0, Seven());
    i, j := SevenMembers(list.vector);
    PartsByCharacter(list.vector, 0, lt, ge, 7, 0, pivot, i, j);
    m := lt;
    LcpUnique([100], [200], 0);
  }

  lemma SevenPivot()
    ensures CharAt(Swap(Seven(), 0, MedianIndex(Seven(), 0, 6, 0))[0].key, 0) == 5
    ensures CharAt([200], 0) == -56 && CharAt([100], 0) == 100
  {
    assert MedianIndex(Seven(), 0, 6, 0) == 6;
  }
}
