/** The heavy hitter list of include/heavyhitter.h: the k items with the best scores of a stream. */
module HeavyHitter {
  import opened Keys

  const MIN: int := -0x8000_0000_0000_0000
  const MAX: int := 0x7FFF_FFFF_FFFF_FFFF

  type Score = x: int | MIN <= x <= MAX witness 0

  /** A slot; an empty name means free. */
  datatype Slot = Slot(score: Score, item: Key) {
    predicate Free() { item == [] }
  }

  /** Up keeps the greatest scores, Down the least. */
  predicate Beats(up: bool, a: Score, b: Score) {
    if up then a > b else a < b
  }

  function Start(up: bool): Score {
    if up then MAX else MIN
  }

  datatype Arrival = Arrival(item: Key, score: Score)

  // ---------- what is kept ----------

  /** b is the best score ever submitted for x. */
  ghost predicate IsBest(up: bool, hist: seq<Arrival>, x: Key, b: Score) {
    && (exists j :: 0 <= j < |hist| && hist[j] == Arrival(x, b))
    && forall j :: 0 <= j < |hist| && hist[j].item == x ==> if up then hist[j].score <= b else hist[j].score >= b
  }

  ghost predicate Held(m: seq<Slot>, x: Key) {
    exists i :: 0 <= i < |m| && m[i].item == x
  }

  ghost predicate Distinct(m: seq<Slot>) {
    forall i, j :: 0 <= i < j < |m| && !m[i].Free() ==> m[i].item != m[j].item
  }

  /** Held scores are the best of their items; what is not held beats nothing that is held, and is only dropped
      when every slot is taken. */
  ghost predicate Top(up: bool, m: seq<Slot>, hist: seq<Arrival>) {
    && Distinct(m)
    && (forall i :: 0 <= i < |m| && !m[i].Free() ==> IsBest(up, hist, m[i].item, m[i].score))
    && (forall j :: 0 <= j < |hist| && !Held(m, hist[j].item) ==> Dropped(up, m, hist[j].score))
  }

  ghost predicate Dropped(up: bool, m: seq<Slot>, s: Score) {
    forall i :: 0 <= i < |m| ==> !m[i].Free() && if up then s <= m[i].score else s >= m[i].score
  }

  /** What one arrival does. */
  ghost predicate Step(up: bool, m: seq<Slot>, a: Arrival, m': seq<Slot>, r: bool) {
    if Held(m, a.item) then
      exists i :: 0 <= i < |m| && m[i].item == a.item && r == Beats(up, a.score, m[i].score) &&
        m' == if r then m[i := Slot(a.score, a.item)] else m
    else if Held(m, []) then
      r && exists i :: 0 <= i < |m| && m[i].Free() && m' == m[i := Slot(a.score, a.item)]
    else if Dropped(up, m, a.score) then
      !r && m' == m
    else
      r && exists i :: 0 <= i < |m| && m' == m[i := Slot(a.score, a.item)] && Weakest(up, m, i)
  }

  ghost predicate Weakest(up: bool, m: seq<Slot>, i: int)
    requires 0 <= i < |m|
  {
    forall j :: 0 <= j < |m| ==> if up then m[i].score <= m[j].score else m[i].score >= m[j].score
  }

  method Add(up: bool, hh: array<Slot>, item: Key, score: Score) returns (r: bool)
    requires item != []
    modifies hh
    ensures Step(up, old(hh[..]), Arrival(item, score), hh[..], r)
  {
    ghost var m := hh[..];
    var weakest: Score := Start(up);
    var indexWeakest, indexFree := hh.Length, hh.Length;
    for i := 0 to hh.Length
      invariant hh[..] == m
      invariant forall j :: 0 <= j < i ==> m[j].item != item
      invariant indexFree == hh.Length || (0 <= indexFree < i && m[indexFree].Free())
      invariant indexFree == hh.Length ==> forall j :: 0 <= j < i ==> !m[j].Free()
      invariant indexWeakest == hh.Length || (0 <= indexWeakest < i && m[indexWeakest].score == weakest)
      invariant indexWeakest == hh.Length ==> weakest == Start(up)
      invariant forall j :: 0 <= j < i && !m[j].Free() ==> !Beats(up, weakest, m[j].score)
    {
      if hh[i].item == [] {
        indexFree := i;
      } else if hh[i].item == item {
        r := Beats(up, score, hh[i].score);
        if r {
          hh[i] := Slot(score, hh[i].item);
        }
        assert hh[..] == if r then m[i := Slot(score, item)] else m;
        return;
      } else if Beats(up, weakest, hh[i].score) {
        indexWeakest := i;
        weakest := hh[i].score;
      }
    }
    if indexFree != hh.Length {
      hh[indexFree] := Slot(score, item);
      assert m[indexFree].Free() && hh[..] == m[indexFree := Slot(score, item)];
      return true;
    }
    if indexWeakest != hh.Length && Beats(up, score, weakest) {
      hh[indexWeakest] := Slot(score, item);
      assert hh[..] == m[indexWeakest := Slot(score, item)];
      assert Weakest(up, m, indexWeakest);
      return true;
    }
    return false;
  }

  // ---------- every run ----------

  lemma BestNext(up: bool, hist: seq<Arrival>, a: Arrival, x: Key, b: Score)
    requires x != a.item && IsBest(up, hist, x, b)
    ensures IsBest(up, hist + [a], x, b)
  {
    var j :| 0 <= j < |hist| && hist[j] == Arrival(x, b);
    assert (hist + [a])[j] == Arrival(x, b);
  }

  /** A submission that beats everything before it is the best. */
  lemma BestNow(up: bool, hist: seq<Arrival>, a: Arrival)
    requires forall j :: 0 <= j < |hist| && hist[j].item == a.item ==> !Beats(up, hist[j].score, a.score)
    ensures IsBest(up, hist + [a], a.item, a.score)
  {
    assert (hist + [a])[|hist|] == a;
  }

  lemma BestStays(up: bool, hist: seq<Arrival>, a: Arrival, b: Score)
    requires IsBest(up, hist, a.item, b) && !Beats(up, a.score, b)
    ensures IsBest(up, hist + [a], a.item, b)
  {
    var j :| 0 <= j < |hist| && hist[j] == Arrival(a.item, b);
    assert (hist + [a])[j] == Arrival(a.item, b);
  }

  /** Writing the arrival into slot i, which was free, its own, or the weakest one. */
  lemma Written(up: bool, m: seq<Slot>, i: nat, a: Arrival, hist: seq<Arrival>)
    requires Top(up, m, hist) && i < |m| && a.item != [] && forall j :: 0 <= j < |hist| ==> hist[j].item != []
    requires m[i].item == a.item || !Held(m, a.item)
    requires m[i].Free() || Beats(up, a.score, m[i].score)
    requires m[i].Free() || m[i].item == a.item || (Weakest(up, m, i) && !Held(m, []))
    requires forall j :: 0 <= j < |hist| && hist[j].item == a.item ==> !Beats(up, hist[j].score, a.score)
    ensures Top(up, m[i := Slot(a.score, a.item)], hist + [a])
  {
    var m', h' := m[i := Slot(a.score, a.item)], hist + [a];
    assert m'[i].item == a.item;
    forall k | 0 <= k < |m'| && !m'[k].Free() ensures IsBest(up, h', m'[k].item, m'[k].score) {
      if k == i {
        BestNow(up, hist, a);
      } else {
        assert m[k].item != a.item;
        BestNext(up, hist, a, m[k].item, m[k].score);
      }
    }
    forall j | 0 <= j < |h'| && !Held(m', h'[j].item) ensures Dropped(up, m', h'[j].score) {
      assert h'[j].item != a.item;
      assert h'[j] == hist[j];
      if Held(m, hist[j].item) {
        var k :| 0 <= k < |m| && m[k].item == hist[j].item;
        assert m'[k].item == hist[j].item || k == i;
        assert IsBest(up, hist, m[i].item, m[i].score);
        assert forall k :: 0 <= k < |m| ==> m[k].item != [];
      }
    }
  }

  lemma StepKeeps(up: bool, m: seq<Slot>, a: Arrival, m': seq<Slot>, r: bool, hist: seq<Arrival>)
    requires Step(up, m, a, m', r) && Top(up, m, hist) && a.item != []
    requires forall j :: 0 <= j < |hist| ==> hist[j].item != []
    ensures Top(up, m', hist + [a]) && |m'| == |m|
  {
    hide Top;
    if Held(m, a.item) {
      var i :| 0 <= i < |m| && m[i].item == a.item && r == Beats(up, a.score, m[i].score) &&
        m' == if r then m[i := Slot(a.score, a.item)] else m;
      HeldBest(up, m, i, hist);
      if r {
        Written(up, m, i, a, hist);
      } else {
        BestStays(up, hist, a, m[i].score);
        OnlyOne(up, m, i, hist);
        Unwritten(up, m, a, hist);
      }
    } else if Held(m, []) {
      var i :| 0 <= i < |m| && m[i].Free() && m' == m[i := Slot(a.score, a.item)];
      AllHeld(up, m, hist);
      Written(up, m, i, a, hist);
    } else if Dropped(up, m, a.score) {
      Unwritten(up, m, a, hist);
    } else {
      var i :| 0 <= i < |m| && m' == m[i := Slot(a.score, a.item)] && Weakest(up, m, i);
      WeakestBeaten(up, m, a, i);
      PastBelow(up, m, a, hist, i);
      Written(up, m, i, a, hist);
    }
  }

  lemma HeldBest(up: bool, m: seq<Slot>, i: nat, hist: seq<Arrival>)
    requires Top(up, m, hist) && i < |m| && m[i].item != []
    ensures IsBest(up, hist, m[i].item, m[i].score)
  {
  }

  lemma OnlyOne(up: bool, m: seq<Slot>, i: nat, hist: seq<Arrival>)
    requires Top(up, m, hist) && i < |m| && m[i].item != []
    ensures forall k :: 0 <= k < |m| && m[k].item == m[i].item ==> k == i
  {
  }

  /** While a slot is free, nothing has been dropped. */
  lemma AllHeld(up: bool, m: seq<Slot>, hist: seq<Arrival>)
    requires Top(up, m, hist) && Held(m, [])
    ensures forall j :: 0 <= j < |hist| ==> Held(m, hist[j].item)
  {
  }

  /** What beats anything beats the weakest. */
  lemma WeakestBeaten(up: bool, m: seq<Slot>, a: Arrival, i: nat)
    requires i < |m| && Weakest(up, m, i) && !Held(m, []) && !Dropped(up, m, a.score)
    ensures Beats(up, a.score, m[i].score) && !m[i].Free()
  {
  }

  /** An item that is not held was never submitted with a better score than one that now gets in. */
  lemma PastBelow(up: bool, m: seq<Slot>, a: Arrival, hist: seq<Arrival>, i: nat)
    requires Top(up, m, hist) && !Held(m, a.item) && i < |m| && Beats(up, a.score, m[i].score)
    ensures forall j :: 0 <= j < |hist| && hist[j].item == a.item ==> !Beats(up, hist[j].score, a.score)
  {
  }

  lemma Unwritten(up: bool, m: seq<Slot>, a: Arrival, hist: seq<Arrival>)
    requires Top(up, m, hist)
    requires forall i :: 0 <= i < |m| && m[i].item == a.item ==> IsBest(up, hist + [a], a.item, m[i].score)
    requires Held(m, a.item) || Dropped(up, m, a.score)
    ensures Top(up, m, hist + [a])
  {
    var h' := hist + [a];
    forall k | 0 <= k < |m| && !m[k].Free() ensures IsBest(up, h', m[k].item, m[k].score) {
      if m[k].item != a.item {
        BestNext(up, hist, a, m[k].item, m[k].score);
      }
    }
    forall j | 0 <= j < |h'| && !Held(m, h'[j].item) ensures Dropped(up, m, h'[j].score) {
      if j < |hist| {
        assert h'[j] == hist[j];
      }
    }
  }

  /** Feeding a whole stream to a cleared list. */
  method AddAll(up: bool, hh: array<Slot>, stream: seq<Arrival>)
    requires forall i :: 0 <= i < hh.Length ==> hh[i].Free()
    requires forall j :: 0 <= j < |stream| ==> stream[j].item != []
    modifies hh
    ensures Top(up, hh[..], stream)
  {
    for n := 0 to |stream|
      invariant Top(up, hh[..], stream[..n])
    {
      ghost var m := hh[..];
      var r := Add(up, hh, stream[n].item, stream[n].score);
      StepKeeps(up, m, stream[n], hh[..], r, stream[..n]);
      assert stream[..n + 1] == stream[..n] + [stream[n]];
    }
    assert stream[..|stream|] == stream;
  }
}
