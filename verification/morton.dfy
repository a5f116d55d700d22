/** Morton codes for any number of dimensions D and bits per coordinate W: coordinates, the order
    they induce on codes, and loadBits of common/mortoncurve.cc. */
module Morton {
  import opened Bits
  import opened Words

  // ---------- positions ----------

  lemma Place(i: nat, d: nat, D: nat)
    requires d < D
    ensures i * D + d >= 0 && (i * D + d) / D == i && (i * D + d) % D == d
  {
    assert (D * i + d) / D == i && (D * i + d) % D == d by {
      DivMod(i, d, D);
    }
  }

  lemma InRange(i: nat, d: nat, D: nat, W: nat)
    requires d < D && i < W
    ensures i * D + d < W * D
  {
    MulLe(i + 1, W, D);
    assert (i + 1) * D == i * D + D;
  }

  lemma SplitPosition(j: nat, D: nat, W: nat)
    requires D > 0 && j < W * D
    ensures j == (j / D) * D + j % D && j / D < W
  {
    if j / D >= W {
      MulLe(W, j / D, D);
    }
  }

  /** Bit i of coordinate d. */
  function Pos(i: nat, d: nat, D: nat): nat { i * D + d }

  lemma PosOrder(i: nat, d: nat, k: nat, e: nat, D: nat)
    requires d < D && e < D
    ensures Pos(i, d, D) < Pos(k, e, D) <==> i < k || (i == k && d < e)
    ensures Pos(i, d, D) == Pos(k, e, D) <==> i == k && d == e
  {
    if i < k {
      MulLe(i + 1, k, D);
      assert (i + 1) * D == i * D + D;
    } else if k < i {
      MulLe(k + 1, i, D);
      assert (k + 1) * D == k * D + D;
    }
  }

  lemma PosRange(i: nat, d: nat, D: nat, W: nat)
    requires d < D && i < W
    ensures Pos(i, d, D) < W * D
  {
    InRange(i, d, D, W);
  }

  lemma PosSplit(j: nat, D: nat, W: nat) returns (i: nat, d: nat)
    requires D > 0 && j < W * D
    ensures i < W && d < D && j == Pos(i, d, D) && i == j / D && d == j % D
  {
    SplitPosition(j, D, W);
    i, d := j / D, j % D;
  }

  // ---------- coordinates ----------

  /** A code of D coordinates with W bits each. */
  predicate IsCode(z: Word, D: nat, W: nat) {
    D > 0 && |z| == W * D
  }

  /** Bit i of coordinate d sits at position i * D + d. */
  function Coord(z: Word, d: nat, D: nat, W: nat): (c: Word)
    requires IsCode(z, D, W) && d < D
    ensures |c| == W
    ensures forall i :: 0 <= i < W ==> Pos(i, d, D) < |z| && c[i] == z[Pos(i, d, D)]
  {
    assert forall i :: 0 <= i < W ==> 0 <= Pos(i, d, D) < |z| by {
      forall i | 0 <= i < W ensures 0 <= Pos(i, d, D) < |z| {
        PosRange(i, d, D, W);
      }
    }
    seq(W, i requires 0 <= i < W => z[Pos(i, d, D)])
  }

  /** Coordinate-wise order. */
  predicate Below(a: Word, b: Word, D: nat, W: nat) {
    && IsCode(a, D, W) && IsCode(b, D, W)
    && forall d :: 0 <= d < D ==> Value(Coord(a, d, D, W)) <= Value(Coord(b, d, D, W))
  }

  predicate InBox(z: Word, lo: Word, hi: Word, D: nat, W: nat) {
    Below(lo, z, D, W) && Below(z, hi, D, W)
  }

  /** Agreement of codes above a position is agreement of every coordinate above its part of it. */
  lemma CoordAgree(a: Word, b: Word, i: nat, d: nat, e: nat, D: nat, W: nat)
    requires IsCode(a, D, W) && IsCode(b, D, W) && d < D && e < D && AgreeAbove(a, b, Pos(i, d, D))
    ensures AgreeAbove(Coord(a, e, D, W), Coord(b, e, D, W), if e > d then i - 1 else i)
  {
    var ca, cb := Coord(a, e, D, W), Coord(b, e, D, W);
    var top := if e > d then i - 1 else i;
    forall k | 0 <= k < W && k > top ensures ca[k] == cb[k] {
      PosOrder(i, d, k, e, D);
    }
  }

  /** Coordinate-wise order implies the order of the codes: every point of a box has
      its code between those of the corners. */
  lemma MortonMonotone(a: Word, b: Word, D: nat, W: nat)
    requires Below(a, b, D, W)
    ensures Value(a) <= Value(b)
  {
    if a != b {
      var p := TopDiff(a, b);
      var i, d := PosSplit(p, D, W);
      hide Pos;
      CoordAgree(a, b, i, d, d, D, W);
      Decide(Coord(a, d, D, W), Coord(b, d, D, W), i);
      Decide(a, b, p);
    }
  }

  // ---------- loadBits ----------

  function And(a: Word, b: Word): (z: Word)
    requires |a| == |b|
    ensures |z| == |a|
  {
    seq(|a|, j requires 0 <= j < |a| => a[j] && b[j])
  }

  function Or(a: Word, b: Word): (z: Word)
    requires |a| == |b|
    ensures |z| == |a|
  {
    seq(|a|, j requires 0 <= j < |a| => a[j] || b[j])
  }

  function Not(a: Word): (z: Word)
    ensures |z| == |a|
  {
    seq(|a|, j requires 0 <= j < |a| => !a[j])
  }

  function Shl(a: Word, k: nat): (z: Word)
    ensures |z| == |a|
  {
    seq(|a|, j requires 0 <= j < |a| => j >= k && a[j - k])
  }

  /** splitBits: bit i of a W-bit number moves to position i * D. */
  function SplitBits(x: Word, D: nat, W: nat): (z: Word)
    requires |x| == W && D > 0
    ensures |z| == W * D
  {
    seq(W * D, j requires 0 <= j < W * D => j % D == 0 && j / D < W && x[j / D])
  }

  /** 1 << i */
  function OneBit(i: nat, W: nat): Word { seq(W, j => j == i) }

  /** (1 << i) - 1 */
  function LowBits(i: nat, W: nat): Word { seq(W, j => j < i) }

  /** The mask (1u << (bit_position / D + 1)) - 1: the shift is of a 32-bit one. */
  function BaseMask(i: nat, W: nat): Word
    requires i + 1 < 32
  {
    LowBits(i + 1, W)
  }

  function LoadBits(pattern: Word, i: nat, value: Word, d: nat, D: nat, W: nat): (z: Word)
    requires IsCode(value, D, W) && |pattern| == W && i + 1 < 32
    ensures |z| == |value|
  {
    var insert := Shl(SplitBits(pattern, D, W), d);
    var wipe := Not(Shl(SplitBits(BaseMask(i, W), D, W), d));
    Or(And(value, wipe), insert)
  }

  lemma SpreadBit(x: Word, d: nat, D: nat, W: nat, k: nat, e: nat)
    requires |x| == W && d < D && e < D && k < W
    ensures Pos(k, e, D) < W * D
    ensures Shl(SplitBits(x, D, W), d)[Pos(k, e, D)] <==> e == d && x[k]
  {
    InRange(k, e, D, W);
    if e >= d {
      Place(k, e - d, D);
    } else if k > 0 {
      Place(k - 1, D + e - d, D);
      assert (k - 1) * D == k * D - D;
    }
  }

  lemma MaskBit(value: Word, cover: Word, insert: Word, j: nat)
    requires |value| == |cover| == |insert| && j < |value|
    ensures Or(And(value, Not(cover)), insert)[j] == ((value[j] && !cover[j]) || insert[j])
  {
  }

  /** loadBits overwrites exactly the bits of one coordinate at and below bit i. */
  lemma LoadBitsAt(pattern: Word, i: nat, value: Word, d: nat, D: nat, W: nat, k: nat, e: nat)
    requires IsCode(value, D, W) && |pattern| == W && i + 1 < 32 && d < D && e < D && k < W
    ensures Pos(k, e, D) < |value|
    ensures LoadBits(pattern, i, value, d, D, W)[Pos(k, e, D)] ==
      if e != d then value[Pos(k, e, D)] else if k <= i then pattern[k] else value[Pos(k, e, D)] || pattern[k]
  {
    var base := BaseMask(i, W);
    assert base[k] == (k <= i);
    SpreadBit(pattern, d, D, W, k, e);
    SpreadBit(base, d, D, W, k, e);
    var insert, cover := Shl(SplitBits(pattern, D, W), d), Shl(SplitBits(base, D, W), d);
    hide Shl;
    hide SplitBits;
    hide Or;
    hide And;
    hide Not;
    hide Pos;
    MaskBit(value, cover, insert, Pos(k, e, D));
  }

  /** The coordinates of the result. */
  lemma LoadBitsCoord(pattern: Word, i: nat, value: Word, d: nat, D: nat, W: nat, e: nat)
    requires IsCode(value, D, W) && |pattern| == W && i + 1 < 32 && d < D && e < D && i < W
    requires forall k :: i < k < W ==> !pattern[k]
    ensures var z := LoadBits(pattern, i, value, d, D, W);
      Coord(z, e, D, W) == if e != d then Coord(value, e, D, W) else pattern[..i + 1] + Coord(value, e, D, W)[i + 1..]
  {
    hide Pos;
    hide LoadBits;
    var z := LoadBits(pattern, i, value, d, D, W);
    var c := Coord(value, e, D, W);
    var want := if e != d then c else pattern[..i + 1] + c[i + 1..];
    forall k | 0 <= k < W ensures Coord(z, e, D, W)[k] == want[k] {
      LoadBitsAt(pattern, i, value, d, D, W, k, e);
    }
  }
}
