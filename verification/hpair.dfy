/** The eight byte key prefix that the skip lists compare first: include/stringhash.h, hm4/hpair.h,
    and compare of include/mystring.h behind it. */
module HPair {
  import opened Keys

  const N: nat := 8

  /** compare: the first bytes as plain char, the rest by memcmp, then the lengths. */
  function Compare(a: Key, b: Key): int {
    if |a| > 0 && |b| > 0 && a[0] != b[0] then
      Sgn(Signed(a[0]), Signed(b[0]))
    else
      var n := Lcp(a, b);
      if n < |a| && n < |b| then Sgn(a[n], b[n]) else Sgn(|a|, |b|)
  }

  /** It is the order of the keys exactly when the first bytes agree on being below 128, or are the same. */
  lemma CompareIsSign(a: Key, b: Key)
    ensures Compare(a, b) == Sign(a, b) <==> (|a| > 0 && |b| > 0 ==> (a[0] < 128 <==> b[0] < 128))
  {
    if |a| > 0 && |b| > 0 && a[0] != b[0] {
      LcpUnique(a, b, 0);
    } else {
      var n := Lcp(a, b);
      hide Lcp;
      if n == |a| == |b| {
        assert a == b;
      }
    }
  }

  // ---------- the prefix as a number ----------

  /** Byte i of the key in a zeroed buffer. */
  function Pad(k: Key, i: nat): Byte { if i < |k| then k[i] else 0 }

  /** The first n bytes as a big-endian number. */
  function Pack(k: Key, n: nat): nat {
    if n == 0 then 0 else 256 * Pack(k, n - 1) + Pad(k, n - 1)
  }

  /** StringHash::create */
  function HKey(k: Key): nat { Pack(k, N) }

  lemma {:induction false} PackCompare(a: Key, b: Key, n: nat) returns (i: nat)
    ensures i <= n && forall j :: 0 <= j < i ==> Pad(a, j) == Pad(b, j)
    ensures Pack(a, n) == Pack(b, n) <==> i == n
    ensures i < n ==> (Pack(a, n) < Pack(b, n) <==> Pad(a, i) < Pad(b, i)) && Pad(a, i) != Pad(b, i)
  {
    if n == 0 {
      i := 0;
    } else {
      i := PackCompare(a, b, n - 1);
      if i == n - 1 && Pad(a, i) == Pad(b, i) {
        i := n;
      }
      hide Pad;
    }
  }

  lemma PackLow(k: Key)
    ensures Pack(k, N) % 256 == Pad(k, N - 1)
  {
    hide Pad;
    assert Pack(k, N) == 256 * Pack(k, N - 1) + Pad(k, N - 1);
  }

  /** The comparison of the prefixes: an answer, and whether it is final. sizeCheck__ looks at the last byte. */
  function CompareHash(a: nat, b: nat): (bool, int) {
    if a != b then (true, Sgn(a, b)) else (a % 256 == 0, 0)
  }

  /** HPair::cmp */
  function Cmp(ha: nat, a: Key, hb: nat, b: Key): int {
    var r := CompareHash(ha, hb);
    if r.0 then r.1 else Compare(if N <= |a| then a[N..] else [], if N <= |b| then b[N..] else [])
  }

  /** No NUL and no byte that plain char makes negative. */
  predicate Plain(k: Key) { forall i :: 0 <= i < |k| ==> 0 < k[i] < 128 }

  lemma PadPrefix(a: Key, b: Key, i: nat)
    requires (forall j :: 0 <= j < i ==> Pad(a, j) == Pad(b, j)) && Pad(a, i) < Pad(b, i)
    ensures Less(a, b)
  {
    assert i < |b|;
    var n := if i < |a| then i else |a|;
    assert forall j :: 0 <= j < n ==> a[j] == Pad(a, j) == Pad(b, j) == b[j];
    LcpUnique(a, b, n);
  }

  lemma PadShared(a: Key, b: Key)
    requires (forall j :: 0 <= j < N ==> Pad(a, j) == Pad(b, j)) && Pad(a, N - 1) != 0
    ensures N <= |a| && N <= |b| && forall j :: 0 <= j < N ==> a[j] == b[j]
  {
    assert Pad(a, N - 1) == Pad(b, N - 1);
    assert forall j :: 0 <= j < N ==> a[j] == Pad(a, j) == Pad(b, j) == b[j];
  }

  lemma PadEqual(a: Key, b: Key)
    requires Plain(a) && Plain(b) && (forall j :: 0 <= j < N ==> Pad(a, j) == Pad(b, j)) && Pad(a, N - 1) == 0
    ensures a == b
  {
    assert Pad(a, N - 1) == Pad(b, N - 1);
    assert |a| < N && |b| < N;
    assert Pad(a, |a|) == Pad(b, |a|) && Pad(a, |b|) == Pad(b, |b|);
    assert |a| == |b|;
    assert forall j :: 0 <= j < |a| ==> a[j] == Pad(a, j) == Pad(b, j) == b[j];
  }

  /** Where keys with one prefix can be told apart: short ones must be the same key, long ones must not part
      right behind the prefix with bytes on both sides of 128. */
  predicate Told(a: Key, b: Key) {
    if Pad(a, N - 1) == 0 then a == b else |a| > N && |b| > N ==> (a[N] < 128 <==> b[N] < 128)
  }

  /** The pairs of keys that the prefix and the bytes behind it tell apart. */
  predicate Tellable(a: Key, b: Key) { HKey(a) == HKey(b) ==> Told(a, b) }

  /** HPair::cmp decides as the full keys do, exactly for these. */
  lemma CmpIsSignExactly(a: Key, b: Key)
    ensures Sgn(Cmp(HKey(a), a, HKey(b), b), 0) == Sign(a, b) <==> Tellable(a, b)
    ensures HKey(a) < HKey(b) ==> Less(a, b)
  {
    var i := PackCompare(a, b, N);
    if i < N {
      if Pad(a, i) < Pad(b, i) {
        PadPrefix(a, b, i);
      } else {
        PadPrefix(b, a, i);
      }
      SignLess(a, b);
      hide Less;
      hide Pack;
      hide Sign;
    } else {
      PackLow(a);
      if Pad(a, N - 1) != 0 {
        PadShared(a, b);
        SuffixOrder(a, b, N);
        CompareIsSign(a[N..], b[N..]);
      } else {
        SignLess(a, b);
      }
      hide Pack;
    }
  }

  /** Plain keys are among them. */
  lemma PlainTellable(a: Key, b: Key)
    requires Plain(a) && Plain(b)
    ensures Tellable(a, b)
  {
    var i := PackCompare(a, b, N);
    if HKey(a) == HKey(b) && Pad(a, N - 1) == 0 {
      PadEqual(a, b);
    }
    hide Pack;
  }

  /** A NUL at the end of a short key disappears in the padding. */
  lemma PrefixNeedsNoNul()
    ensures Cmp(HKey([97]), [97], HKey([97, 0]), [97, 0]) == 0 != Sign([97], [97, 0])
  {
    hide Pack;
    var a, b: Key := [97], [97, 0];
    var i := PackCompare(a, b, N);
    assert forall j :: 0 <= j < N ==> Pad(a, j) == Pad(b, j);
    PackLow(a);
    hide Pad;
    assert |a| != |b|;
  }

  /** Behind eight shared bytes, 200 is taken for less than 100. */
  lemma SuffixNeedsAscii(p: Key)
    requires |p| == N && p[N - 1] != 0
    ensures Cmp(HKey(p + [200]), p + [200], HKey(p + [100]), p + [100]) < 0 && Less(p + [100], p + [200])
  {
    hide Pack;
    var a, b: Key := p + [200], p + [100];
    var i := PackCompare(a, b, N);
    assert forall j :: 0 <= j < N ==> Pad(a, j) == Pad(b, j) == p[j];
    PackLow(a);
    LcpUnique(b, a, N);
    assert a[N..] == [200] && b[N..] == [100];
  }
}
