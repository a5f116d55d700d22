/** Keys as byte strings under the unsigned lexicographic order that the
    memtables keep, described through the longest common prefix. */
module Keys {

  type Byte = x: int | 0 <= x < 256

  type Key = seq<Byte>

  /** A byte read through plain char. */
  function Signed(b: Byte): int { if b < 128 then b else b - 256 }

  function Sgn(a: int, b: int): int { if a > b then 1 else if a < b then -1 else 0 }

  /** Length of the longest common prefix. */
  function Lcp(a: Key, b: Key): (n: nat)
    ensures n <= |a| && n <= |b|
    ensures forall i :: 0 <= i < n ==> a[i] == b[i]
    ensures n < |a| && n < |b| ==> a[n] != b[n]
  {
    if |a| > 0 && |b| > 0 && a[0] == b[0] then
      var n := Lcp(a[1..], b[1..]);
      assert forall i :: 0 < i < n + 1 ==> a[i] == a[1..][i - 1] && b[i] == b[1..][i - 1];
      n + 1
    else
      0
  }

  lemma {:induction false} LcpUnique(a: Key, b: Key, n: nat)
    requires n <= |a| && n <= |b|
    requires forall i :: 0 <= i < n ==> a[i] == b[i]
    requires n < |a| && n < |b| ==> a[n] != b[n]
    ensures Lcp(a, b) == n
  {
  }

  /** Strict unsigned lexicographic order. */
  predicate Less(a: Key, b: Key) {
    var n := Lcp(a, b);
    n < |b| && (n == |a| || a[n] < b[n])
  }

  /** Three-way comparison: the sign that the source's comparators return. */
  function Sign(a: Key, b: Key): int {
    if a == b then 0 else if Less(a, b) then -1 else 1
  }

  lemma LessIrreflexive(a: Key)
    ensures !Less(a, a)
  {
    LcpUnique(a, a, |a|);
  }

  lemma LcpSymmetric(a: Key, b: Key)
    ensures Lcp(a, b) == Lcp(b, a)
  {
    LcpUnique(b, a, Lcp(a, b));
  }

  lemma LessTotal(a: Key, b: Key)
    ensures Less(a, b) || a == b || Less(b, a)
  {
    LcpSymmetric(a, b);
    if !Less(a, b) && !Less(b, a) {
      assert Lcp(a, b) == |a| == |b|;
      assert a == b;
    }
  }

  lemma LessAntisymmetric(a: Key, b: Key)
    requires Less(a, b)
    ensures !Less(b, a) && a != b
  {
    LcpSymmetric(a, b);
    LessIrreflexive(a);
  }

  lemma LessTransitive(a: Key, b: Key, c: Key)
    requires Less(a, b) && Less(b, c)
    ensures Less(a, c)
  {
    var i, j := Lcp(a, b), Lcp(b, c);
    var m := if i < j then i else j;
    LcpUnique(a, c, m);
  }

  lemma SignLess(a: Key, b: Key)
    ensures Sign(a, b) < 0 <==> Less(a, b)
    ensures Sign(a, b) > 0 <==> Less(b, a)
    ensures Sign(a, b) == 0 <==> a == b
  {
    LessTotal(a, b);
    LessIrreflexive(a);
    if Less(a, b) {
      LessAntisymmetric(a, b);
    }
  }

  lemma SuffixLcp(a: Key, b: Key, n: nat)
    requires n <= |a| && n <= |b| && forall i :: 0 <= i < n ==> a[i] == b[i]
    ensures Lcp(a, b) == n + Lcp(a[n..], b[n..])
  {
    var m := Lcp(a[n..], b[n..]);
    assert forall i :: n <= i < |a| ==> a[i] == a[n..][i - n];
    assert forall i :: n <= i < |b| ==> b[i] == b[n..][i - n];
    LcpUnique(a, b, n + m);
  }

  /** Behind a common prefix only the suffixes matter. */
  lemma SuffixOrder(a: Key, b: Key, n: nat)
    requires n <= |a| && n <= |b| && forall i :: 0 <= i < n ==> a[i] == b[i]
    ensures Lcp(a, b) == n + Lcp(a[n..], b[n..])
    ensures Less(a[n..], b[n..]) <==> Less(a, b)
    ensures Sign(a[n..], b[n..]) == Sign(a, b)
  {
    hide Lcp;
    hide Less;
    SuffixLcp(a, b, n);
    SuffixLess(a, b, n);
    SuffixEqual(a, b, n);
  }

  lemma SuffixLess(a: Key, b: Key, n: nat)
    requires n <= |a| && n <= |b| && Lcp(a, b) == n + Lcp(a[n..], b[n..])
    ensures Less(a[n..], b[n..]) <==> Less(a, b)
  {
    hide Lcp;
    var m := Lcp(a[n..], b[n..]);
    assert m < |a| - n ==> a[n..][m] == a[n + m];
    assert m < |b| - n ==> b[n..][m] == b[n + m];
  }

  lemma SuffixEqual(a: Key, b: Key, n: nat)
    requires n <= |a| && n <= |b| && forall i :: 0 <= i < n ==> a[i] == b[i]
    ensures a[n..] == b[n..] <==> a == b
  {
    assert a[..n] == b[..n];
    assert a == a[..n] + a[n..] && b == b[..n] + b[n..];
  }
}
