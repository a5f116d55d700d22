/** BIGMIN: computeBigMinFromMorton_ returns the least code above the current one
    that lies in the query box. */
module BigMin {
  import opened Words
  import opened Morton

  // ---------- one coordinate ----------

  /** The least number with the high bits of a and bit i set. */
  function Raise(a: Word, i: nat): Word
    requires i < |a|
  {
    OneBit(i, |a|)[..i + 1] + a[i + 1..]
  }

  /** The greatest number with the high bits of b and bit i clear. */
  function Lower(b: Word, i: nat): Word
    requires i < |b|
  {
    LowBits(i, |b|)[..i + 1] + b[i + 1..]
  }

  lemma RaiseLeast(a: Word, z: Word, i: nat)
    requires i < |a| && AgreeAbove(a, z, i) && z[i]
    ensures Value(Raise(a, i)) <= Value(z)
  {
    var r := Raise(a, i);
    if r != z {
      Decide(r, z, TopDiff(r, z));
    }
  }

  lemma LowerGreatest(b: Word, z: Word, i: nat)
    requires i < |b| && AgreeAbove(b, z, i) && !z[i]
    ensures Value(z) <= Value(Lower(b, i))
  {
    var r := Lower(b, i);
    if r != z {
      Decide(z, r, TopDiff(z, r));
    }
  }

  /** Splitting an interval at its first free bit. */
  lemma SplitInterval(a: Word, b: Word, i: nat)
    requires i < |a| && AgreeAbove(a, b, i) && !a[i] && b[i]
    ensures Value(a) <= Value(Raise(a, i)) <= Value(b)
    ensures Value(a) <= Value(Lower(b, i)) <= Value(b)
  {
    hide Value;
    RaiseLeast(a, b, i);
    LowerGreatest(b, a, i);
    RaisedAt(a, i);
    LoweredAt(b, i);
    hide Raise;
    hide Lower;
    Decide(a, Raise(a, i), i);
    Decide(Lower(b, i), b, i);
  }

  lemma RaisedAt(a: Word, i: nat)
    requires i < |a|
    ensures AgreeAbove(a, Raise(a, i), i) && Raise(a, i)[i]
  {
  }

  lemma LoweredAt(b: Word, i: nat)
    requires i < |b|
    ensures AgreeAbove(Lower(b, i), b, i) && !Lower(b, i)[i]
  {
  }

  // ---------- codes ----------

  function RaiseCode(z: Word, i: nat, d: nat, D: nat, W: nat): (r: Word)
    requires IsCode(z, D, W) && i + 1 < 32
    ensures |r| == |z|
  {
    LoadBits(OneBit(i, W), i, z, d, D, W)
  }

  function LowerCode(z: Word, i: nat, d: nat, D: nat, W: nat): (r: Word)
    requires IsCode(z, D, W) && i + 1 < 32
    ensures |r| == |z|
  {
    LoadBits(LowBits(i, W), i, z, d, D, W)
  }

  lemma LoadedCoord(z: Word, i: nat, d: nat, D: nat, W: nat, e: nat)
    requires IsCode(z, D, W) && i < W && d < D && i + 1 < 32 && e < D
    ensures var c := Coord(z, e, D, W);
      && Coord(RaiseCode(z, i, d, D, W), e, D, W) == (if e == d then Raise(c, i) else c)
      && Coord(LowerCode(z, i, d, D, W), e, D, W) == (if e == d then Lower(c, i) else c)
  {
    LoadBitsCoord(OneBit(i, W), i, z, d, D, W, e);
    LoadBitsCoord(LowBits(i, W), i, z, d, D, W, e);
    hide LoadBits;
  }

  lemma LoadedAt(z: Word, i: nat, d: nat, D: nat, W: nat, k: nat, e: nat)
    requires IsCode(z, D, W) && i < W && d < D && i + 1 < 32 && k < W && e < D && (k > i || (k == i && e >= d))
    ensures var j := Pos(k, e, D);
      && j < |z|
      && (if k == i && e == d then RaiseCode(z, i, d, D, W)[j] && !LowerCode(z, i, d, D, W)[j]
          else RaiseCode(z, i, d, D, W)[j] == z[j] && LowerCode(z, i, d, D, W)[j] == z[j])
  {
    LoadBitsAt(OneBit(i, W), i, z, d, D, W, k, e);
    LoadBitsAt(LowBits(i, W), i, z, d, D, W, k, e);
    hide LoadBits;
    hide Pos;
  }

  /** Nothing above the position is touched. */
  lemma LoadedAbove(z: Word, i: nat, d: nat, D: nat, W: nat)
    requires IsCode(z, D, W) && i < W && d < D && i + 1 < 32
    ensures Pos(i, d, D) < |z|
    ensures AgreeAbove(RaiseCode(z, i, d, D, W), z, Pos(i, d, D)) && RaiseCode(z, i, d, D, W)[Pos(i, d, D)]
    ensures AgreeAbove(LowerCode(z, i, d, D, W), z, Pos(i, d, D)) && !LowerCode(z, i, d, D, W)[Pos(i, d, D)]
  {
    hide RaiseCode;
    hide LowerCode;
    LoadedAt(z, i, d, D, W, i, d);
    forall j | Pos(i, d, D) < j < |z| ensures RaiseCode(z, i, d, D, W)[j] == z[j] && LowerCode(z, i, d, D, W)[j] == z[j] {
      var k, e := PosSplit(j, D, W);
      PosOrder(i, d, k, e, D);
      LoadedAt(z, i, d, D, W, k, e);
    }
  }

  /** Every point of a box shares the bits that the corners share. */
  lemma BoxSandwich(z: Word, lo: Word, hi: Word, i: nat, d: nat, D: nat, W: nat)
    requires InBox(z, lo, hi, D, W) && i < W && d < D && AgreeAbove(lo, hi, Pos(i, d, D))
    ensures AgreeAbove(lo, z, Pos(i, d, D))
  {
    forall j | Pos(i, d, D) < j < |lo| ensures lo[j] == z[j] {
      var k, e := PosSplit(j, D, W);
      PosOrder(i, d, k, e, D);
      hide Pos;
      hide Value;
      CoordAgree(lo, hi, i, d, e, D, W);
      Sandwich(Coord(lo, e, D, W), Coord(z, e, D, W), Coord(hi, e, D, W), if e > d then i - 1 else i);
    }
  }

  /** Where the corners first differ, the low corner has the clear bit. */
  lemma CornerOrder(lo: Word, hi: Word, i: nat, d: nat, D: nat, W: nat)
    requires Below(lo, hi, D, W) && i < W && d < D && AgreeAbove(lo, hi, Pos(i, d, D))
    ensures Pos(i, d, D) < |lo| && (lo[Pos(i, d, D)] ==> hi[Pos(i, d, D)])
  {
    PosRange(i, d, D, W);
    CoordAgree(lo, hi, i, d, d, D, W);
    hide Pos;
    var p := Pos(i, d, D);
    assert Coord(lo, d, D, W)[i] == lo[p] && Coord(hi, d, D, W)[i] == hi[p];
    if lo[p] && !hi[p] {
      Decide(Coord(lo, d, D, W), Coord(hi, d, D, W), i);
    }
  }

  // ---------- splitting a box ----------

  /** The corners agree above bit i of coordinate d and differ there. */
  predicate Splits(lo: Word, hi: Word, i: nat, d: nat, D: nat, W: nat) {
    && Below(lo, hi, D, W) && i < W && d < D && i + 1 < 32 && Pos(i, d, D) < |lo|
    && AgreeAbove(lo, hi, Pos(i, d, D)) && !lo[Pos(i, d, D)] && hi[Pos(i, d, D)]
  }

  lemma SplitCoord(lo: Word, hi: Word, i: nat, d: nat, D: nat, W: nat, e: nat)
    requires Splits(lo, hi, i, d, D, W) && e < D
    ensures var a, b := Value(Coord(lo, e, D, W)), Value(Coord(hi, e, D, W));
      && a <= Value(Coord(RaiseCode(lo, i, d, D, W), e, D, W)) <= b
      && a <= Value(Coord(LowerCode(hi, i, d, D, W), e, D, W)) <= b
  {
    LoadedCoord(lo, i, d, D, W, e);
    LoadedCoord(hi, i, d, D, W, e);
    if e == d {
      CoordAgree(lo, hi, i, d, d, D, W);
      hide Pos;
      assert !Coord(lo, d, D, W)[i] && Coord(hi, d, D, W)[i];
      hide Coord;
      SplitInterval(Coord(lo, d, D, W), Coord(hi, d, D, W), i);
    }
    hide *;
  }

  lemma SplitPoint(z: Word, lo: Word, hi: Word, i: nat, d: nat, D: nat, W: nat, e: nat)
    requires Splits(lo, hi, i, d, D, W) && InBox(z, lo, hi, D, W) && e < D
    ensures z[Pos(i, d, D)] ==> Value(Coord(RaiseCode(lo, i, d, D, W), e, D, W)) <= Value(Coord(z, e, D, W))
    ensures !z[Pos(i, d, D)] ==> Value(Coord(z, e, D, W)) <= Value(Coord(LowerCode(hi, i, d, D, W), e, D, W))
  {
    LoadedCoord(lo, i, d, D, W, e);
    LoadedCoord(hi, i, d, D, W, e);
    if e == d {
      BoxSandwich(z, lo, hi, i, d, D, W);
      CoordAgree(lo, z, i, d, d, D, W);
      CoordAgree(hi, z, i, d, d, D, W);
      hide Pos;
      assert Coord(z, d, D, W)[i] == z[Pos(i, d, D)];
      hide Coord;
      if z[Pos(i, d, D)] {
        RaiseLeast(Coord(lo, d, D, W), Coord(z, d, D, W), i);
      } else {
        LowerGreatest(Coord(hi, d, D, W), Coord(z, d, D, W), i);
      }
    }
    hide *;
  }

  /** The box falls into the points with the bit set and those with it clear, and each
      part is again a box. */
  lemma SplitCorners(lo: Word, hi: Word, i: nat, d: nat, D: nat, W: nat)
    requires Splits(lo, hi, i, d, D, W)
    ensures var lo', hi', p := RaiseCode(lo, i, d, D, W), LowerCode(hi, i, d, D, W), Pos(i, d, D);
      && Below(lo, lo', D, W) && Below(lo', hi, D, W) && Below(lo, hi', D, W) && Below(hi', hi, D, W)
      && AgreeAbove(lo, hi', p - 1) && AgreeAbove(lo', hi, p - 1) && lo'[p] && !hi'[p]
  {
    var lo', hi' := RaiseCode(lo, i, d, D, W), LowerCode(hi, i, d, D, W);
    LoadedAbove(lo, i, d, D, W);
    LoadedAbove(hi, i, d, D, W);
    hide RaiseCode;
    hide LowerCode;
    hide Value;
    hide Pos;
    hide Coord;
    forall e | 0 <= e < D
      ensures var a, b := Value(Coord(lo, e, D, W)), Value(Coord(hi, e, D, W));
        && a <= Value(Coord(lo', e, D, W)) <= b && a <= Value(Coord(hi', e, D, W)) <= b
    {
      SplitCoord(lo, hi, i, d, D, W, e);
    }
  }

  lemma SplitPoints(z: Word, lo: Word, hi: Word, i: nat, d: nat, D: nat, W: nat)
    requires Splits(lo, hi, i, d, D, W) && InBox(z, lo, hi, D, W)
    ensures if z[Pos(i, d, D)] then InBox(z, RaiseCode(lo, i, d, D, W), hi, D, W) else InBox(z, lo, LowerCode(hi, i, d, D, W), D, W)
  {
    hide RaiseCode;
    hide LowerCode;
    hide Value;
    hide Pos;
    hide Coord;
    var lo', hi', p := RaiseCode(lo, i, d, D, W), LowerCode(hi, i, d, D, W), Pos(i, d, D);
    SplitCorners(lo, hi, i, d, D, W);
    forall e | 0 <= e < D
      ensures z[p] ==> Value(Coord(lo', e, D, W)) <= Value(Coord(z, e, D, W))
      ensures !z[p] ==> Value(Coord(z, e, D, W)) <= Value(Coord(hi', e, D, W))
    {
      SplitPoint(z, lo, hi, i, d, D, W, e);
    }
  }

  lemma BelowTransitive(a: Word, b: Word, c: Word, D: nat, W: nat)
    requires Below(a, b, D, W) && Below(b, c, D, W)
    ensures Below(a, c, D, W)
  {
    hide Coord;
    hide Value;
  }

  // ---------- the loop ----------

  /** The answer: the least code above x in the box, or zero when there is none. */
  ghost predicate IsBigMin(r: Word, x: Word, lo: Word, hi: Word, D: nat, W: nat) {
    if exists z :: InBox(z, lo, hi, D, W) && Value(z) > Value(x) then
      && InBox(r, lo, hi, D, W) && Value(r) > Value(x)
      && forall z :: InBox(z, lo, hi, D, W) && Value(z) > Value(x) ==> Value(r) <= Value(z)
    else
      Value(r) == 0
  }

  /** The candidate best (zero if none) and the box still open, above which x is known. */
  ghost predicate Progress(x: Word, lo0: Word, hi0: Word, lo: Word, hi: Word, best: Word, p: int, D: nat, W: nat) {
    && IsCode(x, D, W) && Below(lo0, lo, D, W) && Below(lo, hi, D, W) && Below(hi, hi0, D, W)
    && AgreeAbove(lo, hi, p) && AgreeAbove(lo, x, p) && IsCode(best, D, W)
    && (Value(best) != 0 ==> InBox(best, lo0, hi0, D, W) && Value(best) > Value(x))
    && (Value(best) != 0 ==> forall z :: InBox(z, lo, hi, D, W) ==> Value(z) < Value(best))
    && forall z :: InBox(z, lo0, hi0, D, W) && Value(z) > Value(x) ==>
         InBox(z, lo, hi, D, W) || (Value(best) != 0 && Value(best) <= Value(z))
  }

  lemma Widen(z: Word, lo0: Word, hi0: Word, lo: Word, hi: Word, D: nat, W: nat)
    requires InBox(z, lo, hi, D, W) && Below(lo0, lo, D, W) && Below(hi, hi0, D, W)
    ensures InBox(z, lo0, hi0, D, W)
  {
    hide Below;
    BelowTransitive(lo0, lo, z, D, W);
    BelowTransitive(z, hi, hi0, D, W);
  }

  /** 0b0011: every point of the open box is above x, the low corner first. */
  lemma StopAtLow(x: Word, lo0: Word, hi0: Word, lo: Word, hi: Word, best: Word, i: nat, d: nat, D: nat, W: nat)
    requires i < W && d < D && Progress(x, lo0, hi0, lo, hi, best, Pos(i, d, D), D, W)
    requires Pos(i, d, D) < |x| && !x[Pos(i, d, D)] && lo[Pos(i, d, D)]
    ensures IsBigMin(lo, x, lo0, hi0, D, W)
  {
    var p := Pos(i, d, D);
    Decide(x, lo, p);
    hide Pos;
    hide Value;
    BelowReflexive(lo, D, W);
    assert InBox(lo, lo, hi, D, W);
    Widen(lo, lo0, hi0, lo, hi, D, W);
    forall z | InBox(z, lo0, hi0, D, W) && Value(z) > Value(x) ensures Value(lo) <= Value(z) {
      if InBox(z, lo, hi, D, W) {
        MortonMonotone(lo, z, D, W);
      }
    }
  }

  lemma BelowReflexive(a: Word, D: nat, W: nat)
    requires IsCode(a, D, W)
    ensures Below(a, a, D, W)
  {
  }

  /** Nothing in the open box is above x: the candidate is the answer. */
  lemma StopAtBest(x: Word, lo0: Word, hi0: Word, lo: Word, hi: Word, best: Word, p: int, D: nat, W: nat)
    requires Progress(x, lo0, hi0, lo, hi, best, p, D, W)
    requires forall z :: InBox(z, lo, hi, D, W) ==> Value(z) <= Value(x)
    ensures IsBigMin(best, x, lo0, hi0, D, W)
  {
    hide InBox;
    hide Below;
    hide Value;
  }

  /** Equal bits: nothing to do. */
  lemma StepSame(x: Word, lo0: Word, hi0: Word, lo: Word, hi: Word, best: Word, p: nat, D: nat, W: nat)
    requires Progress(x, lo0, hi0, lo, hi, best, p, D, W) && p < |x| && x[p] == lo[p] == hi[p]
    ensures Progress(x, lo0, hi0, lo, hi, best, p - 1, D, W)
  {
    hide InBox;
    hide Below;
    hide Value;
  }

  lemma BetweenCorners(z: Word, lo: Word, hi: Word, i: nat, d: nat, D: nat, W: nat, x: Word)
    requires InBox(z, lo, hi, D, W) && i < W && d < D && AgreeAbove(lo, hi, Pos(i, d, D)) && AgreeAbove(lo, x, Pos(i, d, D))
    ensures Pos(i, d, D) < |z| && AgreeAbove(z, x, Pos(i, d, D)) && AgreeAbove(lo, z, Pos(i, d, D))
    ensures z[Pos(i, d, D)] != x[Pos(i, d, D)] ==> (Value(z) < Value(x) <==> x[Pos(i, d, D)])
  {
    PosRange(i, d, D, W);
    BoxSandwich(z, lo, hi, i, d, D, W);
    hide Pos;
    hide Value;
    var p := Pos(i, d, D);
    if z[p] != x[p] {
      Decide(z, x, p);
    }
  }

  /** 0b0100: every point of the open box is below x. */
  lemma StopBelow(x: Word, lo0: Word, hi0: Word, lo: Word, hi: Word, best: Word, i: nat, d: nat, D: nat, W: nat)
    requires i < W && d < D && Progress(x, lo0, hi0, lo, hi, best, Pos(i, d, D), D, W)
    requires Pos(i, d, D) < |x| && x[Pos(i, d, D)] && !hi[Pos(i, d, D)]
    ensures IsBigMin(best, x, lo0, hi0, D, W)
  {
    var p := Pos(i, d, D);
    hide Pos;
    hide Value;
    forall z | InBox(z, lo, hi, D, W) ensures Value(z) <= Value(x) {
      MortonMonotone(z, hi, D, W);
      assert AgreeAbove(hi, x, p);
      Decide(hi, x, p);
    }
    StopAtBest(x, lo0, hi0, lo, hi, best, p, D, W);
  }

  /** All bits seen: the open box is x alone. */
  lemma StopAtEnd(x: Word, lo0: Word, hi0: Word, lo: Word, hi: Word, best: Word, D: nat, W: nat)
    requires Progress(x, lo0, hi0, lo, hi, best, -1, D, W)
    ensures IsBigMin(best, x, lo0, hi0, D, W)
  {
    hide Value;
    assert lo == x && hi == x;
    forall z | InBox(z, lo, hi, D, W) ensures Value(z) <= Value(x) {
      MortonMonotone(z, hi, D, W);
    }
    StopAtBest(x, lo0, hi0, lo, hi, best, -1, D, W);
  }

  /** 0b0101: x has the bit, so only the upper part of the box stays open. */
  lemma StepRaise(x: Word, lo0: Word, hi0: Word, lo: Word, hi: Word, best: Word, i: nat, d: nat, D: nat, W: nat)
    requires Splits(lo, hi, i, d, D, W) && Progress(x, lo0, hi0, lo, hi, best, Pos(i, d, D), D, W) && x[Pos(i, d, D)]
    ensures Progress(x, lo0, hi0, RaiseCode(lo, i, d, D, W), hi, best, Pos(i, d, D) - 1, D, W)
  {
    var lo' := RaiseCode(lo, i, d, D, W);
    SplitCorners(lo, hi, i, d, D, W);
    BelowTransitive(lo0, lo, lo', D, W);
    RaisedBox(x, lo, hi, i, d, D, W);
    LoadedAbove(lo, i, d, D, W);
    AgreeBit(lo', lo, x, Pos(i, d, D));
    hide Below;
    hide InBox;
    hide Value;
    hide AgreeAbove;
    hide Pos;
    hide Splits;
    hide RaiseCode;
    hide LowerCode;
    Advance(x, lo0, hi0, lo, hi, best, lo', hi, best, Pos(i, d, D), D, W);
  }

  lemma AgreeBit(a: Word, b: Word, c: Word, p: nat)
    requires AgreeAbove(a, b, p) && AgreeAbove(b, c, p) && p < |a| && a[p] == c[p]
    ensures AgreeAbove(a, c, p - 1)
  {
  }

  lemma Advance(x: Word, lo0: Word, hi0: Word, lo: Word, hi: Word, best: Word, lo': Word, hi': Word, best': Word, p: nat, D: nat, W: nat)
    requires Progress(x, lo0, hi0, lo, hi, best, p, D, W)
    requires Below(lo0, lo', D, W) && Below(lo', hi', D, W) && Below(hi', hi0, D, W)
    requires AgreeAbove(lo', hi', p - 1) && AgreeAbove(lo', x, p - 1) && IsCode(best', D, W)
    requires Value(best') != 0 ==> InBox(best', lo0, hi0, D, W) && Value(best') > Value(x)
    requires Value(best') != 0 ==> forall z :: InBox(z, lo', hi', D, W) ==> Value(z) < Value(best')
    requires Value(best) != 0 ==> Value(best') != 0 && Value(best') <= Value(best)
    requires forall z :: InBox(z, lo, hi, D, W) && Value(z) > Value(x) ==>
      InBox(z, lo', hi', D, W) || (Value(best') != 0 && Value(best') <= Value(z))
    ensures Progress(x, lo0, hi0, lo', hi', best', p - 1, D, W)
  {
    hide Below;
    hide InBox;
    hide Value;
    hide AgreeAbove;
    hide IsCode;
  }

  lemma RaisedBox(x: Word, lo: Word, hi: Word, i: nat, d: nat, D: nat, W: nat)
    requires Splits(lo, hi, i, d, D, W) && AgreeAbove(lo, x, Pos(i, d, D)) && x[Pos(i, d, D)]
    ensures var lo' := RaiseCode(lo, i, d, D, W);
      && (forall z :: InBox(z, lo, hi, D, W) && Value(z) > Value(x) ==> InBox(z, lo', hi, D, W))
      && (forall z :: InBox(z, lo', hi, D, W) ==> InBox(z, lo, hi, D, W))
  {
    var lo' := RaiseCode(lo, i, d, D, W);
    SplitCorners(lo, hi, i, d, D, W);
    hide Pos;
    hide Value;
    hide Coord;
    hide RaiseCode;
    hide LowerCode;
    forall z | InBox(z, lo, hi, D, W) && Value(z) > Value(x) ensures InBox(z, lo', hi, D, W) {
      BetweenCorners(z, lo, hi, i, d, D, W, x);
      SplitPoints(z, lo, hi, i, d, D, W);
    }
    hide Below;
    forall z | InBox(z, lo', hi, D, W) ensures InBox(z, lo, hi, D, W) {
      BelowTransitive(lo, lo', z, D, W);
    }
  }

  /** 0b0001: x lacks the bit. The lower part stays open; the low corner of the upper part
      is the least point of it and becomes the candidate. */
  lemma StepSplit(x: Word, lo0: Word, hi0: Word, lo: Word, hi: Word, best: Word, i: nat, d: nat, D: nat, W: nat)
    requires Splits(lo, hi, i, d, D, W) && Progress(x, lo0, hi0, lo, hi, best, Pos(i, d, D), D, W) && !x[Pos(i, d, D)]
    ensures Progress(x, lo0, hi0, lo, LowerCode(hi, i, d, D, W), RaiseCode(lo, i, d, D, W), Pos(i, d, D) - 1, D, W)
  {
    var p, lo', hi' := Pos(i, d, D), RaiseCode(lo, i, d, D, W), LowerCode(hi, i, d, D, W);
    SplitCandidate(x, lo0, hi0, lo, hi, i, d, D, W);
    SplitBest(x, lo, hi, best, lo', hi', i, d, D, W);
    assert IsCode(lo', D, W);
    hide Below;
    hide InBox;
    hide Value;
    hide AgreeAbove;
    hide Pos;
    hide Splits;
    hide RaiseCode;
    hide LowerCode;
    Advance(x, lo0, hi0, lo, hi, best, lo, hi', lo', p, D, W);
  }

  lemma SplitCandidate(x: Word, lo0: Word, hi0: Word, lo: Word, hi: Word, i: nat, d: nat, D: nat, W: nat)
    requires Splits(lo, hi, i, d, D, W) && AgreeAbove(lo, x, Pos(i, d, D)) && !x[Pos(i, d, D)]
    requires Below(lo0, lo, D, W) && Below(hi, hi0, D, W)
    ensures var p, lo', hi' := Pos(i, d, D), RaiseCode(lo, i, d, D, W), LowerCode(hi, i, d, D, W);
      && Below(lo, hi', D, W) && Below(hi', hi0, D, W) && AgreeAbove(lo, hi', p - 1) && AgreeAbove(lo, x, p - 1)
      && InBox(lo', lo, hi, D, W) && InBox(lo', lo0, hi0, D, W) && Value(lo') > Value(x)
  {
    var p, lo', hi' := Pos(i, d, D), RaiseCode(lo, i, d, D, W), LowerCode(hi, i, d, D, W);
    SplitCorners(lo, hi, i, d, D, W);
    hide RaiseCode;
    hide LowerCode;
    AgreeBit(lo, lo, x, p);
    BelowTransitive(hi', hi, hi0, D, W);
    BetweenCorners(lo', lo, hi, i, d, D, W, x);
    Widen(lo', lo0, hi0, lo, hi, D, W);
    EqualValues(lo', x);
    hide Below;
    hide Value;
    hide Pos;
  }

  lemma SplitBest(x: Word, lo: Word, hi: Word, best: Word, lo': Word, hi': Word, i: nat, d: nat, D: nat, W: nat)
    requires Splits(lo, hi, i, d, D, W) && AgreeAbove(lo, x, Pos(i, d, D))
    requires lo' == RaiseCode(lo, i, d, D, W) && hi' == LowerCode(hi, i, d, D, W)
    ensures forall z :: InBox(z, lo, hi', D, W) ==> Value(z) < Value(lo')
    ensures forall z :: InBox(z, lo, hi, D, W) ==> InBox(z, lo, hi', D, W) || Value(lo') <= Value(z)
  {
    var p := Pos(i, d, D);
    SplitCorners(lo, hi, i, d, D, W);
    LoadedAbove(lo, i, d, D, W);
    LoadedAbove(hi, i, d, D, W);
    hide Pos;
    hide Value;
    hide Coord;
    hide RaiseCode;
    hide LowerCode;
    assert AgreeAbove(hi', lo', p);
    Decide(hi', lo', p);
    forall z | InBox(z, lo, hi', D, W) ensures Value(z) < Value(lo') {
      MortonMonotone(z, hi', D, W);
    }
    forall z | InBox(z, lo, hi, D, W) ensures InBox(z, lo, hi', D, W) || Value(lo') <= Value(z) {
      SplitPoints(z, lo, hi, i, d, D, W);
      if z[p] {
        MortonMonotone(lo', z, D, W);
      }
    }
  }

  lemma Zeros(n: nat)
    ensures Value(seq(n, j => false)) == 0
  {
    if n > 0 {
      assert seq(n, j => false)[..n - 1] == seq(n - 1, j => false);
      Zeros(n - 1);
    }
  }

  lemma Start(x: Word, zmin: Word, zmax: Word, best: Word, D: nat, W: nat)
    requires IsCode(x, D, W) && Below(zmin, zmax, D, W) && best == seq(|x|, j => false)
    ensures Progress(x, zmin, zmax, zmin, zmax, best, W * D - 1, D, W)
  {
    Zeros(|x|);
    BelowReflexive(zmin, D, W);
    BelowReflexive(zmax, D, W);
    hide Below;
  }

  method Position(p: nat, D: nat, W: nat) returns (i: nat, d: nat)
    requires D > 0 && p < W * D && W <= 32
    ensures i < W && d < D && p == Pos(i, d, D) && (i + 1 < 32 || TopBit(p, D, W))
  {
    i, d := p / D, p % D;
    SplitPosition(p, D, W);
  }

  lemma Corners(x: Word, lo0: Word, hi0: Word, lo: Word, hi: Word, best: Word, i: nat, d: nat, D: nat, W: nat)
    requires i < W && d < D && Progress(x, lo0, hi0, lo, hi, best, Pos(i, d, D), D, W) && Pos(i, d, D) < |x|
    ensures |lo| == |hi| == |x| == W * D
    ensures lo[Pos(i, d, D)] ==> hi[Pos(i, d, D)]
    ensures i + 1 < 32 && !lo[Pos(i, d, D)] && hi[Pos(i, d, D)] ==> Splits(lo, hi, i, d, D, W)
  {
    CornerOrder(lo, hi, i, d, D, W);
  }

  // ---------- the undefined shift ----------

  /** Bit 31 of a coordinate, where the mask of loadBits is 1u shifted by 32. */
  predicate TopBit(p: int, D: nat, W: nat) { W == 32 && 31 * D <= p }

  lemma TopBitDown(p: nat, i: nat, d: nat, D: nat, W: nat)
    requires d < D && p == Pos(i, d, D) && i + 1 < 32
    ensures forall j :: j <= p ==> !TopBit(j, D, W)
  {
    PosOrder(i, d, 31, 0, D);
  }

  /** The corners first differ at p, a top bit of a coordinate, and x agrees with them above. */
  predicate ShiftReached(x: Word, zmin: Word, zmax: Word, p: int, D: nat, W: nat) {
    && 0 <= p < |x| && TopBit(p, D, W) && AgreeAbove(zmin, x, p) && AgreeAbove(zmin, zmax, p)
    && !zmin[p] && zmax[p]
  }

  /** The box of all points in two dimensions, from its least code: the first bit is split. */
  lemma ShiftReachedAt(x: Word, zmin: Word, zmax: Word)
    requires x == zmin == seq(64, j => false) && zmax == seq(64, j => true)
    ensures IsCode(x, 2, 32) && Below(zmin, zmax, 2, 32) && ShiftReached(x, zmin, zmax, 63, 2, 32)
  {
    forall d: nat | d < 2 ensures Value(Coord(zmin, d, 2, 32)) <= Value(Coord(zmax, d, 2, 32)) {
      var a, b := Coord(zmin, d, 2, 32), Coord(zmax, d, 2, 32);
      assert a[31] == zmin[Pos(31, d, 2)] && b[31] == zmax[Pos(31, d, 2)];
      hide Coord;
      Decide(a, b, 31);
    }
  }

  /** No undefined shift so far, and nothing split while a top bit is still ahead. */
  ghost predicate Calm(x: Word, zmin: Word, zmax: Word, lo: Word, hi: Word, p: int, D: nat, W: nat) {
    && (TopBit(p, D, W) ==> lo == zmin && hi == zmax)
    && forall q :: p < q ==> !ShiftReached(x, zmin, zmax, q, D, W)
  }

  lemma CalmSame(x: Word, zmin: Word, zmax: Word, lo: Word, hi: Word, p: nat, D: nat, W: nat)
    requires Calm(x, zmin, zmax, lo, hi, p, D, W) && p < |lo| == |hi| && lo[p] == hi[p]
    ensures Calm(x, zmin, zmax, lo, hi, p - 1, D, W)
  {
  }

  lemma CalmBelow(x: Word, zmin: Word, zmax: Word, lo: Word, hi: Word, lo': Word, hi': Word, p: nat, D: nat, W: nat)
    requires Calm(x, zmin, zmax, lo, hi, p, D, W) && forall j :: j <= p ==> !TopBit(j, D, W)
    ensures Calm(x, zmin, zmax, lo', hi', p - 1, D, W)
  {
  }

  /** x leaves the open box at p, so that no lower shift is reached either. */
  lemma CalmStop(x: Word, zmin: Word, zmax: Word, lo: Word, hi: Word, p: nat, D: nat, W: nat, q: int)
    requires Calm(x, zmin, zmax, lo, hi, p, D, W) && p < |x| == |lo| == |hi| && lo[p] == hi[p] != x[p]
    ensures !ShiftReached(x, zmin, zmax, q, D, W)
  {
    if ShiftReached(x, zmin, zmax, q, D, W) {
      assert TopBit(p, D, W);
    }
  }

  lemma CalmReached(x: Word, zmin: Word, zmax: Word, lo: Word, hi: Word, best: Word, p: nat, D: nat, W: nat)
    requires Calm(x, zmin, zmax, lo, hi, p, D, W) && Progress(x, zmin, zmax, lo, hi, best, p, D, W)
    requires p < |x| && TopBit(p, D, W) && !lo[p] && hi[p]
    ensures ShiftReached(x, zmin, zmax, p, D, W)
  {
    hide Below;
    hide InBox;
    hide Value;
  }

  /** The loop of computeBigMinFromMorton_. It runs into the undefined shift of loadBits exactly
      when x and the corners agree down to a top bit in which the corners differ. */
  method ComputeBigMin(x: Word, zmin: Word, zmax: Word, D: nat, W: nat) returns (defined: bool, r: Word)
    requires IsCode(x, D, W) && Below(zmin, zmax, D, W) && 0 < W <= 32
    ensures defined <==> !exists p :: ShiftReached(x, zmin, zmax, p, D, W)
    ensures defined ==> |r| == |x| && IsBigMin(r, x, zmin, zmax, D, W)
  {
    var lo, hi, best := zmin, zmax, seq(|x|, j => false);
    var p := W * D - 1;
    Start(x, zmin, zmax, best, D, W);
    assert |lo| == |hi| == |best| == |x| == W * D;
    assert Calm(x, zmin, zmax, lo, hi, p, D, W);
    hide TopBit;
    hide ShiftReached;
    hide Progress;
    hide Pos;
    hide IsBigMin;
    hide Below;
    hide RaiseCode;
    hide LowerCode;
    hide Splits;
    hide Value;
    while p >= 0
      invariant -1 <= p < |x| && |lo| == |hi| == |best| == |x|
      invariant Progress(x, zmin, zmax, lo, hi, best, p, D, W)
      invariant Calm(x, zmin, zmax, lo, hi, p, D, W)
      decreases p + 1
    {
      var i, d := Position(p, D, W);
      Corners(x, zmin, zmax, lo, hi, best, i, d, D, W);
      if !lo[p] && hi[p] && i + 1 == 32 {
        // 0b0001 and 0b0101 both call loadBits
        CalmReached(x, zmin, zmax, lo, hi, best, p, D, W);
        return false, best;
      } else if !x[p] && !lo[p] && hi[p] {
        TopBitDown(p, i, d, D, W);
        StepSplit(x, zmin, zmax, lo, hi, best, i, d, D, W);
        CalmBelow(x, zmin, zmax, lo, hi, lo, LowerCode(hi, i, d, D, W), p, D, W);
        best, hi := RaiseCode(lo, i, d, D, W), LowerCode(hi, i, d, D, W);
      } else if lo[p] && !hi[p] {
        // not possible because min <= max
        assert false;
      } else if !x[p] && lo[p] {
        StopAtLow(x, zmin, zmax, lo, hi, best, i, d, D, W);
        forall q ensures !ShiftReached(x, zmin, zmax, q, D, W) { CalmStop(x, zmin, zmax, lo, hi, p, D, W, q); }
        return true, lo;
      } else if x[p] && !hi[p] {
        StopBelow(x, zmin, zmax, lo, hi, best, i, d, D, W);
        forall q ensures !ShiftReached(x, zmin, zmax, q, D, W) { CalmStop(x, zmin, zmax, lo, hi, p, D, W, q); }
        return true, best;
      } else if x[p] && !lo[p] {
        TopBitDown(p, i, d, D, W);
        StepRaise(x, zmin, zmax, lo, hi, best, i, d, D, W);
        CalmBelow(x, zmin, zmax, lo, hi, RaiseCode(lo, i, d, D, W), hi, p, D, W);
        lo := RaiseCode(lo, i, d, D, W);
      } else {
        StepSame(x, zmin, zmax, lo, hi, best, p, D, W);
        CalmSame(x, zmin, zmax, lo, hi, p, D, W);
      }
      p := p - 1;
    }
    assert p == -1;
    StopAtEnd(x, zmin, zmax, lo, hi, best, D, W);
    NeverReached(x, zmin, zmax, lo, hi, D, W);
    return true, best;
  }

  lemma NeverReached(x: Word, zmin: Word, zmax: Word, lo: Word, hi: Word, D: nat, W: nat)
    requires Calm(x, zmin, zmax, lo, hi, -1, D, W)
    ensures !exists q :: ShiftReached(x, zmin, zmax, q, D, W)
  {
  }
}
