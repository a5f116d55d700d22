/** Unsigned words as sequences of bits, least significant bit first. */
module Words {
  import opened Bits

  type Word = seq<bool>

  function Value(a: Word): nat {
    if a == [] then 0 else Value(a[..|a| - 1]) + if a[|a| - 1] then Pow2(|a| - 1) else 0
  }

  /** The two words agree on every bit above p. */
  predicate AgreeAbove(a: Word, b: Word, p: int) {
    |a| == |b| && forall j :: p < j < |a| && 0 <= j ==> a[j] == b[j]
  }

  lemma {:induction false} ValueBound(a: Word)
    ensures Value(a) < Pow2(|a|)
  {
    if a != [] {
      ValueBound(a[..|a| - 1]);
    }
  }

  /** The highest bit where they differ decides. */
  lemma {:induction false} Decide(a: Word, b: Word, p: nat)
    requires p < |a| && AgreeAbove(a, b, p) && a[p] != b[p]
    ensures Value(a) < Value(b) <==> b[p]
    ensures Value(a) > Value(b) <==> a[p]
    decreases |a|
  {
    var n := |a| - 1;
    if p == n {
      ValueBound(a[..n]);
      ValueBound(b[..n]);
    } else {
      assert a[n] == b[n];
      Decide(a[..n], b[..n], p);
    }
  }

  /** Highest position where two different words differ. */
  function TopDiff(a: Word, b: Word): (p: nat)
    requires |a| == |b| && a != b
    ensures p < |a| && AgreeAbove(a, b, p) && a[p] != b[p]
  {
    var n := |a| - 1;
    if a[n] != b[n] then n else
      assert a == a[..n] + [a[n]] && b == b[..n] + [b[n]];
      TopDiff(a[..n], b[..n])
  }

  lemma EqualValues(a: Word, b: Word)
    requires |a| == |b|
    ensures Value(a) == Value(b) <==> a == b
  {
    if a != b {
      Decide(a, b, TopDiff(a, b));
    }
  }

  /** A word between two words that share their high bits shares them too. */
  lemma Sandwich(a: Word, z: Word, b: Word, p: int)
    requires AgreeAbove(a, b, p) && |z| == |a| && Value(a) <= Value(z) <= Value(b)
    ensures AgreeAbove(a, z, p)
  {
    if a != z && z != b {
      var q, r := TopDiff(a, z), TopDiff(z, b);
      Decide(a, z, q);
      Decide(z, b, r);
      if q > p {
        assert a[q] == b[q];
        assert r >= q;
        assert r > p;
        assert a[r] == b[r];
      }
    }
  }
}
