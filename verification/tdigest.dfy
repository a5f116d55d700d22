/** The t-digest of common/tdigest.cc in exact arithmetic: centroids in order, weight and mass conserved. */
module TDigest {

  datatype Centroid = Centroid(mean: real, weight: nat) {
    function WeightedMean(): real { mean * weight as real }
  }

  function Abs(x: real): real { if x < 0.0 then -x else x }

  function Weight(cs: seq<Centroid>): nat {
    if cs == [] then 0 else Weight(cs[..|cs| - 1]) + cs[|cs| - 1].weight
  }

  function Mass(cs: seq<Centroid>): real {
    if cs == [] then 0.0 else Mass(cs[..|cs| - 1]) + cs[|cs| - 1].WeightedMean()
  }

  predicate Ordered(cs: seq<Centroid>) {
    forall i, j :: 0 <= i < j < |cs| ==> cs[i].mean <= cs[j].mean
  }

  predicate Positive(cs: seq<Centroid>) {
    forall i :: 0 <= i < |cs| ==> cs[i].weight > 0
  }

  predicate Bounded(cs: seq<Centroid>, lo: real, hi: real) {
    forall i :: 0 <= i < |cs| ==> lo <= cs[i].mean <= hi
  }

  lemma {:induction false} Concat(a: seq<Centroid>, b: seq<Centroid>)
    ensures Weight(a + b) == Weight(a) + Weight(b) && Mass(a + b) == Mass(a) + Mass(b)
  {
    if b == [] {
      assert a + b == a;
    } else {
      assert (a + b)[..|a + b| - 1] == a + b[..|b| - 1];
      Concat(a, b[..|b| - 1]);
    }
  }

  lemma One(c: Centroid)
    ensures Weight([c]) == c.weight && Mass([c]) == c.WeightedMean()
  {
    assert [c][..0] == [];
  }

  lemma Split(a: seq<Centroid>, c: Centroid, b: seq<Centroid>)
    ensures Weight(a + [c] + b) == Weight(a) + c.weight + Weight(b)
    ensures Mass(a + [c] + b) == Mass(a) + c.WeightedMean() + Mass(b)
  {
    Concat(a + [c], b);
    Concat(a, [c]);
    One(c);
  }

  // ---------- compression ----------

  /** The test of compressCentroids_: near enough, with or without regard to the weight. */
  predicate Close(a: Centroid, b: Centroid, delta: real, weighted: bool) {
    (if weighted then (a.weight + b.weight) as real else 1.0) * Abs(b.mean - a.mean) <= delta
  }

  function Join(a: Centroid, b: Centroid): Centroid
    requires a.weight + b.weight > 0
  {
    Centroid((a.WeightedMean() + b.WeightedMean()) / (a.weight + b.weight) as real, a.weight + b.weight)
  }

  /** The result of the loop when out is written, current is open and rest is still to come. */
  function Merged(out: seq<Centroid>, current: Centroid, rest: seq<Centroid>, delta: real, weighted: bool): seq<Centroid>
    requires current.weight > 0 && Positive(rest)
    decreases |rest|
  {
    if rest == [] then out + [current]
    else if Close(current, rest[0], delta, weighted) then Merged(out, Join(current, rest[0]), rest[1..], delta, weighted)
    else Merged(out + [current], rest[0], rest[1..], delta, weighted)
  }

  function Compressed(cs: seq<Centroid>, delta: real, weighted: bool): seq<Centroid>
    requires Positive(cs)
  {
    if cs == [] then [] else Merged([], cs[0], cs[1..], delta, weighted)
  }

  lemma JoinBetween(a: Centroid, b: Centroid)
    requires a.weight > 0 && b.weight > 0 && a.mean <= b.mean
    ensures a.mean <= Join(a, b).mean <= b.mean
    ensures Join(a, b).WeightedMean() == a.WeightedMean() + b.WeightedMean()
  {
    Between(a.mean, b.mean, a.weight as real, b.weight as real, a.WeightedMean(), b.WeightedMean(), (a.weight + b.weight) as real);
  }

  /** The weighted mean of two numbers lies between them. */
  lemma Between(x: real, y: real, v: real, w: real, p: real, q: real, t: real)
    requires v > 0.0 && w > 0.0 && x <= y && t == v + w && p == x * v && q == y * w
    ensures x <= (p + q) / t <= y && (p + q) / t * t == p + q
  {
    var k, l := w * (y - x), v * (y - x);
    assert p + q == x * t + k && p + q == y * t - l;
    assert (x * t + k) / t == x + k / t;
    assert (y * t - l) / t == y - l / t;
    assert k / t >= 0.0 && l / t >= 0.0;
  }

  lemma {:induction false} MergedKeeps(
    out: seq<Centroid>, current: Centroid, rest: seq<Centroid>, delta: real, weighted: bool, lo: real, hi: real)
    requires Positive(out) && current.weight > 0 && Positive(rest)
    requires Ordered(out + [current] + rest) && Bounded(out + [current] + rest, lo, hi)
    ensures var cs := Merged(out, current, rest, delta, weighted);
      && Positive(cs) && Ordered(cs) && Bounded(cs, lo, hi) && 0 < |cs| <= |out| + 1 + |rest|
      && Weight(cs) == Weight(out) + current.weight + Weight(rest)
      && Mass(cs) == Mass(out) + current.WeightedMean() + Mass(rest)
    decreases |rest|
  {
    var all := out + [current] + rest;
    if rest == [] {
      assert all == out + [current];
      Split(out, current, []);
    } else {
      var next, more := rest[0], rest[1..];
      assert rest == [] + [next] + more && rest == [next] + more;
      Split([], next, more);
      Tail(out, current, rest);
      if Close(current, next, delta, weighted) {
        JoinBetween(current, next);
        Joined(out, current, next, more, lo, hi);
        MergedKeeps(out, Join(current, next), more, delta, weighted, lo, hi);
      } else {
        assert out + [current] + [next] + more == all;
        Split(out, current, []);
        assert out + [current] + [] == out + [current];
        MergedKeeps(out + [current], next, more, delta, weighted, lo, hi);
      }
    }
  }

  lemma Tail(out: seq<Centroid>, current: Centroid, rest: seq<Centroid>)
    requires rest != [] && Ordered(out + [current] + rest)
    ensures current.mean <= rest[0].mean
  {
    var all := out + [current] + rest;
    assert all[|out|] == current && all[|out| + 1] == rest[0];
  }

  /** Two neighbours replaced by something between them. */
  lemma Joined(out: seq<Centroid>, current: Centroid, next: Centroid, more: seq<Centroid>, lo: real, hi: real)
    requires current.weight > 0 && next.weight > 0
    requires Ordered(out + [current] + ([next] + more)) && Bounded(out + [current] + ([next] + more), lo, hi)
    requires current.mean <= Join(current, next).mean <= next.mean
    ensures Ordered(out + [Join(current, next)] + more) && Bounded(out + [Join(current, next)] + more, lo, hi)
  {
    hide Join;
    var all, cs, n := out + [current] + ([next] + more), out + [Join(current, next)] + more, |out|;
    assert all[n] == current && all[n + 1] == next;
    assert forall i :: 0 <= i < n ==> cs[i] == all[i];
    assert forall i :: n < i < |cs| ==> cs[i] == all[i + 1];
    assert cs[n] == Join(current, next);
    forall i, j | 0 <= i < j < |cs| ensures cs[i].mean <= cs[j].mean {
      assert all[if i <= n then i else i + 1].mean <= all[j + 1].mean;
      if j == n {
        assert all[i].mean <= all[n].mean;
      } else if i == n {
        assert all[n + 1].mean <= all[j + 1].mean;
      } else if j < n {
        assert all[i].mean <= all[j].mean;
      }
    }
  }

  /** What compression keeps. */
  lemma CompressedKeeps(cs: seq<Centroid>, delta: real, weighted: bool, lo: real, hi: real)
    requires Positive(cs) && Ordered(cs) && Bounded(cs, lo, hi)
    ensures var r := Compressed(cs, delta, weighted);
      && Positive(r) && Ordered(r) && Bounded(r, lo, hi) && |r| <= |cs| && (cs != [] ==> r != [])
      && Weight(r) == Weight(cs) && Mass(r) == Mass(cs)
  {
    if cs != [] {
      assert cs == [] + [cs[0]] + cs[1..];
      Split([], cs[0], cs[1..]);
      MergedKeeps([], cs[0], cs[1..], delta, weighted, lo, hi);
    }
  }

  // ---------- which centroids are joined ----------

  /** One centroid for a group: the weights added up, the mean weighted with them. */
  function Pool(g: seq<Centroid>): Centroid
    requires Weight(g) > 0
  {
    Centroid(Mass(g) / Weight(g) as real, Weight(g))
  }

  /** The distance of the means, times the weights if they count, is within delta. */
  predicate Passes(a: Centroid, b: Centroid, delta: real, weighted: bool) {
    var d := if a.mean <= b.mean then b.mean - a.mean else a.mean - b.mean;
    if weighted then (a.weight + b.weight) as real * d <= delta else d <= delta
  }

  /** In the group from i to k each next centroid passes the test against those before it. */
  ghost predicate Chained(cs: seq<Centroid>, i: nat, k: nat, delta: real, weighted: bool)
    requires Positive(cs) && i < k <= |cs|
  {
    forall m :: i < m < k ==> Weight(cs[i..m]) > 0 && Passes(Pool(cs[i..m]), cs[m], delta, weighted)
  }

  /** c pools the group from i to k, which ends exactly where the next centroid fails the test. */
  ghost predicate IsGroup(cs: seq<Centroid>, i: int, k: int, c: Centroid, delta: real, weighted: bool)
    requires Positive(cs)
  {
    && 0 <= i < k <= |cs| && Chained(cs, i, k, delta, weighted)
    && Weight(cs[i..k]) > 0 && c == Pool(cs[i..k])
    && (k < |cs| ==> !Passes(c, cs[k], delta, weighted))
  }

  /** r pools consecutive groups of the first n centroids, cut at cuts. */
  ghost predicate Grouped(cs: seq<Centroid>, n: nat, r: seq<Centroid>, cuts: seq<nat>, delta: real, weighted: bool) {
    && Positive(cs) && n <= |cs| && |cuts| == |r| + 1 && cuts[0] == 0 && cuts[|r|] == n
    && forall g :: 0 <= g < |r| ==> IsGroup(cs, cuts[g], cuts[g + 1], r[g], delta, weighted)
  }

  lemma {:induction false} PositiveWeight(g: seq<Centroid>)
    requires Positive(g) && g != []
    ensures Weight(g) > 0
  {
    if |g| > 1 {
      PositiveWeight(g[..|g| - 1]);
    }
  }

  lemma PoolOne(c: Centroid)
    requires c.weight > 0
    ensures Weight([c]) > 0 && Pool([c]) == c
  {
    One(c);
    Quotient(c.mean, c.weight as real);
  }

  lemma Quotient(x: real, w: real)
    requires w > 0.0
    ensures x * w / w == x && x / w * w == x
  {
  }

  /** Joining one more centroid pools one more. */
  lemma PoolNext(g: seq<Centroid>, c: Centroid)
    requires Weight(g) > 0 && c.weight > 0
    ensures Weight(g + [c]) > 0 && Join(Pool(g), c) == Pool(g + [c])
  {
    Concat(g, [c]);
    One(c);
    Quotient(Mass(g), Weight(g) as real);
  }

  lemma SameTest(a: Centroid, b: Centroid, delta: real, weighted: bool)
    ensures Close(a, b, delta, weighted) <==> Passes(a, b, delta, weighted)
  {
  }

  lemma JoinedWeights()
    ensures forall a: Centroid, b: Centroid :: a.weight + b.weight > 0 ==> Join(a, b).weight == a.weight + b.weight
  {
  }

  lemma GroupedMore(cs: seq<Centroid>, out: seq<Centroid>, cuts: seq<nat>, i: nat, k: nat, c: Centroid, delta: real, weighted: bool)
    requires Grouped(cs, i, out, cuts, delta, weighted) && IsGroup(cs, i, k, c, delta, weighted)
    ensures Grouped(cs, k, out + [c], cuts + [k], delta, weighted)
  {
    assert k <= |cs|;
    hide IsGroup;
    hide Positive;
  }

  lemma {:induction false} MergedGroups(
    cs: seq<Centroid>, out: seq<Centroid>, cuts: seq<nat>, i: nat, k: nat, current: Centroid, delta: real, weighted: bool)
    returns (more: seq<nat>)
    requires Grouped(cs, i, out, cuts, delta, weighted) && i < k <= |cs| && Chained(cs, i, k, delta, weighted)
    requires Weight(cs[i..k]) > 0 && current == Pool(cs[i..k])
    ensures Grouped(cs, |cs|, Merged(out, current, cs[k..], delta, weighted), more, delta, weighted)
    decreases |cs| - k
  {
    hide Close;
    hide Passes;
    hide Join;
    hide Pool;
    hide Weight;
    hide Grouped;
    if k == |cs| {
      more := cuts + [k];
      GroupedMore(cs, out, cuts, i, k, current, delta, weighted);
    } else {
      GroupedPositive(cs, i, out, cuts, delta, weighted);
      SameTest(current, cs[k], delta, weighted);
      assert cs[k..][0] == cs[k] && cs[k..][1..] == cs[k + 1..];
      if Close(current, cs[k], delta, weighted) {
        assert cs[i..k] + [cs[k]] == cs[i..k + 1];
        PoolNext(cs[i..k], cs[k]);
        more := MergedGroups(cs, out, cuts, i, k + 1, Join(current, cs[k]), delta, weighted);
      } else {
        assert cs[k..k + 1] == [cs[k]];
        PoolOne(cs[k]);
        GroupedMore(cs, out, cuts, i, k, current, delta, weighted);
        more := MergedGroups(cs, out + [current], cuts + [k], k, k + 1, cs[k], delta, weighted);
      }
    }
  }

  lemma GroupedPositive(cs: seq<Centroid>, n: nat, r: seq<Centroid>, cuts: seq<nat>, delta: real, weighted: bool)
    requires Grouped(cs, n, r, cuts, delta, weighted)
    ensures Positive(cs)
  {
  }

  /** Compression pools the groups that the test leaves together, going from left to right. */
  lemma CompressedGroups(cs: seq<Centroid>, delta: real, weighted: bool) returns (cuts: seq<nat>)
    requires Positive(cs)
    ensures Grouped(cs, |cs|, Compressed(cs, delta, weighted), cuts, delta, weighted)
  {
    cuts := [0];
    if cs != [] {
      assert cs[0..1] == [cs[0]];
      PoolOne(cs[0]);
      cuts := MergedGroups(cs, [], [0], 0, 1, cs[0], delta, weighted);
    }
  }

  /** Two neighbours pass the test. */
  ghost predicate SomeClose(cs: seq<Centroid>, delta: real, weighted: bool) {
    exists i :: 0 <= i < |cs| - 1 && Close(cs[i], cs[i + 1], delta, weighted)
  }

  lemma {:induction false} MergedSize(out: seq<Centroid>, current: Centroid, rest: seq<Centroid>, delta: real, weighted: bool)
    requires current.weight > 0 && Positive(rest)
    ensures |Merged(out, current, rest, delta, weighted)| <= |out| + 1 + |rest|
    ensures |Merged(out, current, rest, delta, weighted)| < |out| + 1 + |rest| <==> SomeClose([current] + rest, delta, weighted)
    decreases |rest|
  {
    hide Close;
    hide SomeClose;
    if rest == [] {
      assert [current] + rest == [current];
      NoneClose(current, delta, weighted);
    } else {
      var next, more := rest[0], rest[1..];
      FirstClose(current, next, more, delta, weighted);
      assert rest == [next] + more;
      if Close(current, next, delta, weighted) {
        MergedSize(out, Join(current, next), more, delta, weighted);
      } else {
        MergedSize(out + [current], next, more, delta, weighted);
      }
    }
  }

  lemma NoneClose(c: Centroid, delta: real, weighted: bool)
    ensures !SomeClose([c], delta, weighted)
  {
  }

  lemma FirstClose(a: Centroid, b: Centroid, more: seq<Centroid>, delta: real, weighted: bool)
    ensures SomeClose([a] + ([b] + more), delta, weighted) <==> Close(a, b, delta, weighted) || SomeClose([b] + more, delta, weighted)
  {
    hide Close;
    var ds := [b] + more;
    var cs := [a] + ds;
    assert cs[0] == a && forall i :: 0 <= i < |ds| ==> cs[i + 1] == ds[i];
    if SomeClose(cs, delta, weighted) && !Close(a, b, delta, weighted) {
      var i :| 0 <= i < |cs| - 1 && Close(cs[i], cs[i + 1], delta, weighted);
      assert i > 0 && cs[i] == ds[i - 1] && cs[i + 1] == ds[i];
    }
    if Close(a, b, delta, weighted) {
      assert Close(cs[0], cs[1], delta, weighted);
    }
    if i :| 0 <= i < |ds| - 1 && Close(ds[i], ds[i + 1], delta, weighted) {
      assert Close(cs[i + 1], cs[i + 2], delta, weighted);
    }
  }

  /** Compression frees a slot exactly when two neighbours pass the test as they are. */
  lemma ShrinksIffSomeClose(cs: seq<Centroid>, delta: real, weighted: bool)
    requires Positive(cs)
    ensures |Compressed(cs, delta, weighted)| < |cs| <==> SomeClose(cs, delta, weighted)
  {
    if cs != [] {
      assert cs == [cs[0]] + cs[1..];
      MergedSize([], cs[0], cs[1..], delta, weighted);
    }
  }

  // ---------- in place ----------

  /** compressCentroids_: the output never overtakes the input. */
  method CompressCentroids(a: array<Centroid>, size: nat, delta: real, weighted: bool) returns (n: nat)
    requires 1 < size <= a.Length && Positive(a[..size])
    modifies a
    ensures n <= size && a[..n] == Compressed(old(a[..size]), delta, weighted)
    ensures exists cuts :: Grouped(old(a[..size]), size, a[..n], cuts, delta, weighted)
  {
    ghost var cs := a[..size];
    ghost var cuts := CompressedGroups(cs, delta, weighted);
    assert Grouped(cs, size, Compressed(cs, delta, weighted), cuts, delta, weighted);
    hide Grouped;
    hide Close;
    hide Join;
    JoinedWeights();
    n := 0;
    var current := a[0];
    assert cs[1..] == a[1..size];
    for i := 1 to size
      invariant n < i && current.weight > 0 && a[i..size] == cs[i..] && Positive(cs[i..])
      invariant Merged(a[..n], current, cs[i..], delta, weighted) == Compressed(cs, delta, weighted)
    {
      assert cs[i..][0] == cs[i] == a[i] && cs[i..][1..] == cs[i + 1..];
      ghost var out := a[..n];
      if Close(current, a[i], delta, weighted) {
        current := Join(current, a[i]);
      } else {
        var x := a[i];
        a[n] := current;
        n := n + 1;
        assert a[..n] == out + [current];
        current := x;
      }
    }
    assert cs[size..] == [];
    ghost var out := a[..n];
    a[n] := current;
    n := n + 1;
    assert a[..n] == out + [current];
  }

  /** findMinDistance */
  method FindMinDistance(a: array<Centroid>, size: nat) returns (d: real)
    requires 1 < size <= a.Length
    ensures exists i :: 0 <= i < size - 1 && d == Abs(a[i].mean - a[i + 1].mean)
    ensures forall i :: 0 <= i < size - 1 ==> d <= Abs(a[i].mean - a[i + 1].mean)
  {
    d := Abs(a[0].mean - a[1].mean);
    for i := 0 to size - 1
      invariant exists k :: 0 <= k < size - 1 && d == Abs(a[k].mean - a[k + 1].mean)
      invariant forall k :: 0 <= k < i ==> d <= Abs(a[k].mean - a[k + 1].mean)
    {
      var distance := Abs(a[i].mean - a[i + 1].mean);
      if distance < d {
        d := distance;
      }
    }
  }

  // ---------- percentile ----------

  /** Weight of the centroids up to and including i. */
  function Upto(cs: seq<Centroid>, i: nat): nat
    requires i < |cs|
  {
    Weight(cs[..i + 1])
  }

  /** The first centroid from i on at which the cumulated weight reaches the target, else the last. */
  function Rank(cs: seq<Centroid>, i: nat, target: real): (r: nat)
    requires i < |cs|
    ensures i <= r < |cs| && (r < |cs| - 1 ==> Upto(cs, r) as real >= target)
    ensures forall j :: i <= j < r ==> (Upto(cs, j) as real) < target
    decreases |cs| - i
  {
    if i == |cs| - 1 || Upto(cs, i) as real >= target then i else Rank(cs, i + 1, target)
  }

  /** The share p of a weight. */
  function Portion(p: real, w: nat): real { p * w as real }

  function PercentileOf(cs: seq<Centroid>, lo: real, hi: real, p: real): real
    requires cs != []
  {
    if p == 0.0 then lo else if p == 1.0 then hi else Value(cs, Portion(p, Weight(cs)))
  }

  lemma PercentileCases(cs: seq<Centroid>, lo: real, hi: real, p: real)
    requires cs != []
    ensures p == 0.0 ==> PercentileOf(cs, lo, hi, p) == lo
    ensures p == 1.0 ==> PercentileOf(cs, lo, hi, p) == hi
    ensures p != 0.0 && p != 1.0 ==> PercentileOf(cs, lo, hi, p) == Value(cs, Portion(p, Weight(cs)))
  {
    hide Portion;
    hide Value;
    hide Weight;
  }

  /** The mean at a rank. */
  function Value(cs: seq<Centroid>, target: real): real
    requires cs != []
  {
    cs[Rank(cs, 0, target)].mean
  }

  /** With centroid i the weights reach the target, and not before. */
  predicate Reached(cs: seq<Centroid>, i: int, target: real) {
    0 <= i < |cs| && (Weight(cs[..i]) as real) < target && target <= Weight(cs[..i + 1]) as real
  }

  /** Below the rank the weights do not reach the target, with it they do. */
  lemma RankReaches(cs: seq<Centroid>, target: real)
    requires cs != []
    ensures 0.0 < target <= Weight(cs) as real ==>
      Reached(cs, Rank(cs, 0, target), target)
  {
    var r := Rank(cs, 0, target);
    hide Rank;
    assert cs[..|cs|] == cs;
    if r == 0 {
      assert cs[..0] == [];
    } else {
      assert Upto(cs, r - 1) == Weight(cs[..r]);
    }
    assert r < |cs| - 1 ==> Upto(cs, r) as real >= target;
  }

  lemma PortionReached(cs: seq<Centroid>, i: int, p: real, w: nat)
    requires Reached(cs, i, Portion(p, w))
    ensures Reached(cs, i, p * w as real)
  {
    hide Weight;
  }

  lemma Share(p: real, w: nat)
    requires 0.0 < p < 1.0 && w > 0
    ensures 0.0 < Portion(p, w) <= w as real
  {
    Product(p, 1.0, w as real);
  }

  lemma RankMonotone(cs: seq<Centroid>, s: real, t: real)
    requires cs != [] && s <= t
    ensures Rank(cs, 0, s) <= Rank(cs, 0, t)
  {
    hide Upto;
    var i, j := Rank(cs, 0, s), Rank(cs, 0, t);
  }

  lemma Scale(p: real, q: real, w: nat)
    requires p <= q
    ensures Portion(p, w) <= Portion(q, w)
  {
    Product(p, q, w as real);
  }

  lemma Product(p: real, q: real, w: real)
    requires p <= q && w >= 0.0
    ensures p * w <= q * w
  {
  }

  /** A larger share never gives a smaller value, and every value is between the extremes. */
  lemma PercentileMonotone(cs: seq<Centroid>, lo: real, hi: real, p: real, q: real)
    requires cs != [] && Ordered(cs) && Bounded(cs, lo, hi) && 0.0 <= p <= q <= 1.0
    ensures lo <= PercentileOf(cs, lo, hi, p) <= PercentileOf(cs, lo, hi, q) <= hi
  {
    hide Weight;
    hide Rank;
    hide Upto;
    hide Portion;
    var w := Weight(cs);
    Scale(p, q, w);
    ValueMonotone(cs, lo, hi, Portion(p, w), Portion(q, w));
  }

  lemma ValueMonotone(cs: seq<Centroid>, lo: real, hi: real, s: real, t: real)
    requires cs != [] && Ordered(cs) && Bounded(cs, lo, hi) && s <= t
    ensures lo <= Value(cs, s) <= Value(cs, t) <= hi
  {
    hide Upto;
    RankMonotone(cs, s, t);
  }

  // ---------- the digest ----------

  datatype Compression = Uncompressed | Standard | Aggressive

  /** A value finds room: a free slot, or compression makes one. The aggressive mode compresses by the least
      distance only if that exceeds delta; otherwise it does what the standard mode does, which may merge nothing. */
  ghost predicate Accepts(mode: Compression, cs: seq<Centroid>, capacity: nat, delta: real) {
    || |cs| < capacity
    || (mode != Uncompressed && |cs| > 1 && (SomeClose(cs, delta, true) || (mode == Aggressive && !SomeClose(cs, delta, false))))
  }

  /** The mode called aggressive can still drop a value. */
  lemma AggressiveMayDrop()
    ensures !Accepts(Aggressive, [Centroid(0.0, 1), Centroid(1.0, 1)], 2, 1.0)
  {
    var cs := [Centroid(0.0, 1), Centroid(1.0, 1)];
    assert Close(cs[0], cs[1], 1.0, false);
    assert !Close(cs[0], cs[1], 1.0, true);
  }

  /** The centroids that were taken. */
  function Picked(cs: seq<Centroid>, taken: seq<bool>): (r: seq<Centroid>)
    requires |taken| == |cs|
    ensures (forall i :: 0 <= i < |cs| ==> taken[i]) ==> r == cs
  {
    if cs == [] then [] else
      var n := |cs| - 1;
      assert cs == cs[..n] + [cs[n]];
      Picked(cs[..n], taken[..n]) + if taken[n] then [cs[n]] else []
  }

  lemma AllPicked(cs: seq<Centroid>, taken: seq<bool>)
    requires |taken| == |cs|
    ensures (forall i :: 0 <= i < |cs| ==> taken[i]) ==> Picked(cs, taken) == cs
  {
  }

  lemma PickedNext(cs: seq<Centroid>, i: nat, taken: seq<bool>, room: bool)
    requires i < |cs| && |taken| == i
    ensures Picked(cs[..i + 1], taken + [room]) == Picked(cs[..i], taken) + if room then [cs[i]] else []
  {
    assert cs[..i + 1][..i] == cs[..i] && (taken + [room])[..i] == taken;
  }

  lemma Regroup(a: seq<Centroid>, b: seq<Centroid>, c: Centroid)
    ensures a + b + [c] == a + (b + [c]) && b + [] == b
  {
  }

  /** The least and the greatest of the values. */
  predicate Extremes(vs: seq<real>, lo: real, hi: real) {
    lo in vs && hi in vs && forall v :: v in vs ==> lo <= v <= hi
  }

  lemma ExtremesNext(vs: seq<real>, lo: real, hi: real, v: real)
    requires Extremes(vs, lo, hi)
    ensures lo <= hi && Extremes(vs + [v], if v < lo then v else lo, if v > hi then v else hi)
  {
    assert lo in vs + [v] && hi in vs + [v] && v in vs + [v];
  }

  class RawTDigest {
    const data: array<Centroid>
    var size: nat
    var weight: nat
    var min: real
    var max: real
    /** What was taken, and every value that was submitted. */
    ghost var accepted: seq<Centroid>
    ghost var seen: seq<real>

    ghost predicate Valid()
      reads this, data
    {
      Core() && (size == 0 && data.Length > 0 ==> seen == [])
    }

    ghost predicate Core()
      reads this, data
    {
      && size <= data.Length
      && (size > 0 ==> seen != []) && (seen != [] ==> Extremes(seen, min, max))
      && Positive(data[..size]) && Ordered(data[..size]) && Bounded(data[..size], min, max)
      && Weight(data[..size]) == Weight(accepted) && Mass(data[..size]) == Mass(accepted)
      && (size > 0 ==> weight == Weight(accepted) > 0)
      && (size == 0 ==> accepted == [])
    }

    constructor (capacity: nat)
      ensures Valid() && size == 0 && accepted == [] && seen == [] && data.Length == capacity
    {
      data := new Centroid[capacity](_ => Centroid(0.0, 0));
      size, weight, min, max := 0, 0, 0.0, 0.0;
      accepted, seen := [], [];
    }

    lemma InSize()
      requires Valid()
      ensures size <= data.Length
    {
    }

    method UpdateMinMax(value: real)
      requires Valid()
      modifies this`min, this`max, this`seen
      ensures Core() && min <= value <= max && seen == (if old(size) == 0 then [] else old(seen)) + [value]
    {
      ghost var before := if size == 0 then [] else seen;
      seen := before + [value];
      if size == 0 {
        min, max := value, value;
        return;
      }
      hide Extremes;
      ExtremesNext(before, min, max, value);
      if value < min {
        min := value;
      }
      if value > max {
        max := value;
      }
    }

    /** insertIntoSortedRange: the lower bound, everything from there one place on. */
    method InsertSorted(item: Centroid) returns (ghost p: nat)
      requires size < data.Length && Ordered(data[..size])
      modifies data
      ensures p <= size && data[..size + 1] == old(data[..size])[..p] + [item] + old(data[..size])[p..]
      ensures forall i :: 0 <= i < p ==> old(data[i]).mean < item.mean
      ensures forall i :: p <= i < size ==> item.mean <= old(data[i]).mean
    {
      ghost var cs := data[..size];
      var at := LowerBound(item.mean);
      p := at;
      assert forall i :: 0 <= i < size ==> cs[i] == data[i];
      hide Ordered;
      Shift(at);
      data[at] := item;
      Shifted(cs, p, item, data[..size + 1]);
    }

    /** std::lower_bound on the means. */
    method LowerBound(mean: real) returns (at: nat)
      requires size <= data.Length && Ordered(data[..size])
      ensures at <= size && (forall i :: 0 <= i < at ==> data[i].mean < mean) && (forall i :: at <= i < size ==> mean <= data[i].mean)
    {
      ghost var cs := data[..size];
      at := 0;
      var end := size;
      while at < end
        invariant at <= end <= size
        invariant forall i :: 0 <= i < at ==> cs[i].mean < mean
        invariant forall i :: end <= i < size ==> mean <= cs[i].mean
      {
        var mid := (at + end) / 2;
        assert cs[mid] == data[mid];
        if data[mid].mean < mean {
          at := mid + 1;
        } else {
          end := mid;
        }
      }
      assert forall i :: 0 <= i < size ==> cs[i] == data[i];
    }

    /** std::move_backward by one place. */
    method Shift(at: nat)
      requires at <= size < data.Length
      modifies data
      ensures forall i :: 0 <= i < at ==> data[i] == old(data[i])
      ensures forall i :: at < i <= size ==> data[i] == old(data[i - 1])
    {
      var j := size;
      while j > at
        invariant at <= j <= size
        invariant forall i :: 0 <= i < j ==> data[i] == old(data[i])
        invariant forall i :: j < i <= size ==> data[i] == old(data[i - 1])
      {
        data[j] := data[j - 1];
        j := j - 1;
      }
    }

    /** One more centroid. */
    method Insert(value: real, w: nat)
      requires Core() && seen != [] && size < data.Length && w > 0 && min <= value <= max
      modifies this`size, this`weight, this`accepted, data
      ensures Valid() && accepted == old(accepted) + [Centroid(value, w)] && size == old(size) + 1
    {
      var item := Centroid(value, w);
      ghost var cs := data[..size];
      var before := if size == 0 then 0 else weight;
      ghost var p := InsertSorted(item);
      Inserted(cs, p, item, min, max);
      Concat(accepted, [item]);
      One(item);
      hide Weight;
      hide Mass;
      size := size + 1;
      weight := before + w;
      accepted := accepted + [item];
    }

    /** Replacing the centroids by what a compression made of them. */
    method Compact(delta: real, weighted: bool)
      requires Valid() && size > 1
      modifies this`size, data
      ensures Valid() && exists cuts :: Grouped(old(data[..size]), old(size), data[..size], cuts, delta, weighted)
      ensures size <= old(size) && (size < old(size) <==> SomeClose(old(data[..size]), delta, weighted))
    {
      hide SomeClose;
      hide Compressed;
      hide Weight;
      hide Mass;
      hide Grouped;
      ghost var cs := data[..size];
      ShrinksIffSomeClose(cs, delta, weighted);
      var n := CompressCentroids(data, size, delta, weighted);
      CompressedKeeps(cs, delta, weighted, min, max);
      size := n;
    }

    /** compress */
    method Compress(delta: real)
      requires Valid()
      modifies this`size, data
      ensures Valid() && if old(size) < 2 then data[..size] == old(data[..size])
        else exists cuts :: Grouped(old(data[..size]), old(size), data[..size], cuts, delta, true)
    {
      if size >= 2 {
        Compact(delta, true);
      }
    }

    /** compressAggressive: never more centroids, and one less exactly when Accepts says so. */
    method CompressAggressive(delta: real)
      requires Valid() && size > 1
      modifies this`size, data
      ensures Valid() && size <= old(size)
      ensures size < old(size) <==> old(SomeClose(data[..size], delta, true) || !SomeClose(data[..size], delta, false))
    {
      ghost var cs := data[..size];
      var distance := FindMinDistance(data, size);
      LeastDistance(cs, distance, delta);
      hide SomeClose;
      hide Compressed;
      if distance > delta {
        Compact(distance, false);
      } else {
        Compact(delta, true);
      }
    }

    /** add: the value is taken exactly when Accepts says so; otherwise only the extremes may move. */
    method Add(mode: Compression, delta: real, value: real, w: nat)
      requires Valid() && w > 0
      modifies this, data
      ensures Valid() && min <= value <= max
      ensures data.Length > 0 ==> seen == old(seen) + [value]
      ensures accepted ==
        if old(Accepts(mode, data[..size], data.Length, delta)) then old(accepted) + [Centroid(value, w)] else old(accepted)
      ensures size <= old(size) + 1
    {
      hide SomeClose;
      UpdateMinMax(value);
      if size < data.Length {
        Insert(value, w);
        return;
      }
      var full := size;
      if mode != Uncompressed && size > 1 {
        if mode == Standard {
          Compact(delta, true);
        } else {
          CompressAggressive(delta);
        }
      }
      if size < full {
        Insert(value, w);
      }
    }

    /** One centroid of another digest; room says whether it was taken. */
    method AddFrom(mode: Compression, delta: real, i: nat, src: RawTDigest) returns (ghost room: bool)
      requires Valid() && src.Valid() && src != this && src.data != data && i < src.size
      modifies this, data
      ensures Valid() && src.Valid() && size <= old(size) + 1 && src.data[..src.size] == old(src.data[..src.size])
      ensures accepted == old(accepted) + if room then [src.data[..src.size][i]] else []
      ensures old(size) < data.Length ==> room
    {
      room := Accepts(mode, data[..size], data.Length, delta);
      var c := src.data[i];
      assert c == src.data[..src.size][i];
      hide SomeClose;
      Add(mode, delta, c.mean, c.weight);
    }

    /** merge: the centroids of another digest are added in order; some may find no room, none while there are
        slots for all. */
    method Merge(mode: Compression, delta: real, src: RawTDigest) returns (ghost taken: seq<bool>)
      requires Valid() && src.Valid() && src != this && src.data != data
      modifies this, data
      ensures Valid() && |taken| == src.size && accepted == old(accepted) + Picked(src.data[..src.size], taken)
      ensures old(size) + src.size <= data.Length ==> accepted == old(accepted) + src.data[..src.size]
    {
      hide Picked;
      hide RawTDigest.Valid;
      taken := [];
      src.InSize();
      ghost var cs, before := src.data[..src.size], accepted;
      for i := 0 to src.size
        invariant Valid() && src.Valid() && size <= old(size) + i && |cs| == src.size <= src.data.Length && src.data[..src.size] == cs
        invariant |taken| == i && accepted == before + Picked(cs[..i], taken)
        invariant old(size) + src.size <= data.Length ==> forall k :: 0 <= k < i ==> taken[k]
      {
        ghost var room := AddFrom(mode, delta, i, src);
        PickedNext(cs, i, taken, room);
        Regroup(before, Picked(cs[..i], taken), cs[i]);
        taken := taken + [room];
      }
      assert cs[..src.size] == cs;
      AllPicked(cs, taken);
    }

    /** The mean of the centroid at which the weights, added up, reach the share p of the whole weight. */
    method Percentile(p: real) returns (r: real)
      requires Valid() && 0.0 <= p <= 1.0
      ensures r == if size == 0 then 0.0 else PercentileOf(data[..size], min, max, p)
      ensures size > 0 && p == 0.0 ==> r in seen && forall v :: v in seen ==> r <= v
      ensures size > 0 && p == 1.0 ==> r in seen && forall v :: v in seen ==> v <= r
      ensures size > 0 && 0.0 < p < 1.0 ==> exists i :: 0 <= i < size && r == data[i].mean && Reached(data[..size], i, p * Weight(accepted) as real)
    {
      hide Rank;
      hide Weight;
      hide Mass;
      hide Ordered;
      hide Positive;
      hide Bounded;
      hide PercentileOf;
      hide Portion;
      hide Value;
      if size == 0 {
        return 0.0;
      }
      ghost var cs := data[..size];
      PercentileCases(cs, min, max, p);
      if p == 0.0 {
        return min;
      }
      if p == 1.0 {
        return max;
      }
      assert Weight(cs) == weight == Weight(accepted);
      r := AtShare(p, cs);
      ghost var i :| 0 <= i < size && r == data[i].mean && Reached(cs, i, Portion(p, weight));
      PortionReached(cs, i, p, Weight(accepted));
    }

    method AtShare(p: real, ghost cs: seq<Centroid>) returns (r: real)
      requires 0 < size <= data.Length && cs == data[..size] && weight == Weight(cs) > 0 && 0.0 < p < 1.0
      ensures r == Value(cs, Portion(p, weight))
      ensures exists i :: 0 <= i < size && r == data[i].mean && Reached(cs, i, Portion(p, weight))
    {
      hide Portion;
      hide Weight;
      hide Reached;
      hide Value;
      Share(p, weight);
      r := AtRank(Portion(p, weight));
    }

    method AtRank(target: real) returns (r: real)
      requires 0 < size <= data.Length
      ensures r == Value(data[..size], target)
      ensures 0.0 < target <= Weight(data[..size]) as real ==> exists i :: 0 <= i < size && r == data[i].mean && Reached(data[..size], i, target)
    {
      ghost var cs := data[..size];
      ghost var k := Rank(cs, 0, target);
      RankReaches(cs, target);
      assert cs[k] == data[k];
      var cumulated := 0;
      assert cs[..0] == [];
      for i := 0 to size - 1
        invariant cumulated == Weight(cs[..i]) && Rank(cs, 0, target) == Rank(cs, i, target)
      {
        assert cs[..i + 1][..i] == cs[..i] && cs[..i + 1][i] == cs[i] == data[i];
        cumulated := cumulated + data[i].weight;
        assert cumulated == Upto(cs, i);
        if cumulated as real >= target {
          return data[i].mean;
        }
      }
      return data[size - 1].mean;
    }

    /** mean: exactly the weighted mean of the accepted values. */
    method Mean() returns (r: real)
      requires Valid()
      ensures if accepted == [] then r == 0.0 else Weight(accepted) > 0 && r == Mass(accepted) / Weight(accepted) as real
    {
      if size == 0 {
        return 0.0;
      }
      ghost var cs := data[..size];
      var sum := 0.0;
      assert cs[..0] == [];
      for i := 0 to size
        invariant sum == Mass(cs[..i])
      {
        assert cs[..i + 1][..i] == cs[..i] && cs[..i + 1][i] == cs[i] == data[i];
        sum := sum + data[i].WeightedMean();
      }
      assert cs[..size] == cs;
      return sum / weight as real;
    }
  }

  lemma Shifted(cs: seq<Centroid>, p: nat, item: Centroid, ds: seq<Centroid>)
    requires p <= |cs| && |ds| == |cs| + 1 && ds[p] == item
    requires (forall i :: 0 <= i < p ==> ds[i] == cs[i]) && (forall i :: p < i < |ds| ==> ds[i] == cs[i - 1])
    ensures ds == cs[..p] + [item] + cs[p..]
  {
  }

  lemma Inserted(cs: seq<Centroid>, p: nat, item: Centroid, lo: real, hi: real)
    requires p <= |cs| && Ordered(cs) && Positive(cs) && Bounded(cs, lo, hi) && item.weight > 0 && lo <= item.mean <= hi
    requires (forall i :: 0 <= i < p ==> cs[i].mean < item.mean) && (forall i :: p <= i < |cs| ==> item.mean <= cs[i].mean)
    ensures var ds := cs[..p] + [item] + cs[p..];
      && Ordered(ds) && Positive(ds) && Bounded(ds, lo, hi)
      && Weight(ds) == Weight(cs) + item.weight && Mass(ds) == Mass(cs) + item.WeightedMean()
  {
    hide Weight;
    hide Mass;
    var a, b := cs[..p], cs[p..];
    assert cs == a + b;
    InsertedOrder(a, item, b, lo, hi);
    Split(a, item, b);
    Concat(a, b);
  }

  lemma InsertedOrder(a: seq<Centroid>, item: Centroid, b: seq<Centroid>, lo: real, hi: real)
    requires Ordered(a + b) && Positive(a + b) && Bounded(a + b, lo, hi) && item.weight > 0 && lo <= item.mean <= hi
    requires (forall i :: 0 <= i < |a| ==> (a + b)[i].mean < item.mean) && (forall i :: |a| <= i < |a + b| ==> item.mean <= (a + b)[i].mean)
    ensures Ordered(a + [item] + b) && Positive(a + [item] + b) && Bounded(a + [item] + b, lo, hi)
  {
    var cs, ds, p := a + b, a + [item] + b, |a|;
    assert forall i :: 0 <= i < p ==> ds[i] == cs[i];
    assert forall i :: p < i < |ds| ==> ds[i] == cs[i - 1];
    assert ds[p] == item;
  }

  /** The least distance tells whether some neighbours are within delta; by itself it always merges two. */
  lemma LeastDistance(cs: seq<Centroid>, d: real, delta: real)
    requires |cs| > 1
    requires exists i :: 0 <= i < |cs| - 1 && d == Abs(cs[i].mean - cs[i + 1].mean)
    requires forall i :: 0 <= i < |cs| - 1 ==> d <= Abs(cs[i].mean - cs[i + 1].mean)
    ensures d > delta <==> !SomeClose(cs, delta, false)
    ensures SomeClose(cs, d, false)
  {
    var i :| 0 <= i < |cs| - 1 && d == Abs(cs[i].mean - cs[i + 1].mean);
    assert Close(cs[i], cs[i + 1], d, false);
    assert d <= delta ==> Close(cs[i], cs[i + 1], delta, false);
  }
}
