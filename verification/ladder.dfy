/** The mask ladders of common/mortoncurve.h on machine words, and what they are as bit sequences. */
module Ladder {
  import opened Words
  import opened Morton

  predicate Bit(x: bv64, j: nat)
    requires j < 64
  {
    (x >> j) & 1 == 1
  }

  /** The low n bits of a machine word. */
  function Bits(x: bv64, n: nat): (w: Word)
    requires n <= 64
    ensures |w| == n && forall j :: 0 <= j < n ==> w[j] == Bit(x, j)
  {
    seq(n, j requires 0 <= j < n => Bit(x, j))
  }

  // ---------- two coordinates of 32 bits ----------

  function SplitBits2D32(x: bv64): bv64 {
    var x := x & 0xffff_ffff;
    var x := (x | (x << 16)) & 0x0000ffff0000ffff;
    var x := (x | (x << 8)) & 0x00ff00ff00ff00ff;
    var x := (x | (x << 4)) & 0x0f0f0f0f0f0f0f0f;
    var x := (x | (x << 2)) & 0x3333333333333333;
    (x | (x << 1)) & 0x5555555555555555
  }

  function CombineBits2D32(x: bv64): bv64 {
    var x := x & 0x5555555555555555;
    var x := (x ^ (x >> 1)) & 0x3333333333333333;
    var x := (x ^ (x >> 2)) & 0x0f0f0f0f0f0f0f0f;
    var x := (x ^ (x >> 4)) & 0x00ff00ff00ff00ff;
    var x := (x ^ (x >> 8)) & 0x0000ffff0000ffff;
    (x ^ (x >> 16)) & 0x00000000ffffffff
  }

  function ToMorton2D32(x: bv64, y: bv64): bv64 {
    SplitBits2D32(x) | (SplitBits2D32(y) << 1)
  }

  function FromMorton2D32(z: bv64): (r: (bv64, bv64))
    ensures ToMorton2D32(r.0, r.1) == z
  {
    (CombineBits2D32(z), CombineBits2D32(z >> 1))
  }

  lemma RoundTrip2D32(x: bv64, y: bv64)
    requires x <= 0xffff_ffff && y <= 0xffff_ffff
    ensures FromMorton2D32(ToMorton2D32(x, y)) == (x, y)
  {
  }

  lemma Splits0(x: bv64)
    ensures var z := SplitBits2D32(x);
      && Bit(z, 0) == Bit(x, 0) && !Bit(z, 1)
      && Bit(z, 2) == Bit(x, 1) && !Bit(z, 3)
      && Bit(z, 4) == Bit(x, 2) && !Bit(z, 5)
      && Bit(z, 6) == Bit(x, 3) && !Bit(z, 7)
      && Bit(z, 8) == Bit(x, 4) && !Bit(z, 9)
      && Bit(z, 10) == Bit(x, 5) && !Bit(z, 11)
      && Bit(z, 12) == Bit(x, 6) && !Bit(z, 13)
      && Bit(z, 14) == Bit(x, 7) && !Bit(z, 15)
  {
  }

  lemma Splits8(x: bv64)
    ensures var z := SplitBits2D32(x);
      && Bit(z, 16) == Bit(x, 8) && !Bit(z, 17)
      && Bit(z, 18) == Bit(x, 9) && !Bit(z, 19)
      && Bit(z, 20) == Bit(x, 10) && !Bit(z, 21)
      && Bit(z, 22) == Bit(x, 11) && !Bit(z, 23)
      && Bit(z, 24) == Bit(x, 12) && !Bit(z, 25)
      && Bit(z, 26) == Bit(x, 13) && !Bit(z, 27)
      && Bit(z, 28) == Bit(x, 14) && !Bit(z, 29)
      && Bit(z, 30) == Bit(x, 15) && !Bit(z, 31)
  {
  }

  lemma Splits16(x: bv64)
    ensures var z := SplitBits2D32(x);
      && Bit(z, 32) == Bit(x, 16) && !Bit(z, 33)
      && Bit(z, 34) == Bit(x, 17) && !Bit(z, 35)
      && Bit(z, 36) == Bit(x, 18) && !Bit(z, 37)
      && Bit(z, 38) == Bit(x, 19) && !Bit(z, 39)
      && Bit(z, 40) == Bit(x, 20) && !Bit(z, 41)
      && Bit(z, 42) == Bit(x, 21) && !Bit(z, 43)
      && Bit(z, 44) == Bit(x, 22) && !Bit(z, 45)
      && Bit(z, 46) == Bit(x, 23) && !Bit(z, 47)
  {
  }

  lemma Splits24(x: bv64)
    ensures var z := SplitBits2D32(x);
      && Bit(z, 48) == Bit(x, 24) && !Bit(z, 49)
      && Bit(z, 50) == Bit(x, 25) && !Bit(z, 51)
      && Bit(z, 52) == Bit(x, 26) && !Bit(z, 53)
      && Bit(z, 54) == Bit(x, 27) && !Bit(z, 55)
      && Bit(z, 56) == Bit(x, 28) && !Bit(z, 57)
      && Bit(z, 58) == Bit(x, 29) && !Bit(z, 59)
      && Bit(z, 60) == Bit(x, 30) && !Bit(z, 61)
      && Bit(z, 62) == Bit(x, 31) && !Bit(z, 63)
  {
  }

  lemma SplitAt2D32(x: bv64, i: nat)
    requires i < 32
    ensures Bit(SplitBits2D32(x), 2 * i) == Bit(x, i) && !Bit(SplitBits2D32(x), 2 * i + 1)
  {
    hide Bit;
    hide SplitBits2D32;
    if i < 8 { Splits0(x); }
    else if i < 16 { Splits8(x); }
    else if i < 24 { Splits16(x); }
    else if i < 32 { Splits24(x); }
  }

  /** The ladder is splitBits for two dimensions. */
  lemma Ladder2D32(x: bv64)
    ensures Bits(SplitBits2D32(x), 64) == SplitBits(Bits(x, 32), 2, 32)
  {
    hide SplitBits2D32;
    hide Bit;
    forall i | 0 <= i < 32
      ensures Bits(SplitBits2D32(x), 64)[2 * i] == Bits(x, 32)[i] && !Bits(SplitBits2D32(x), 64)[2 * i + 1]
    {
      SplitAt2D32(x, i);
    }
    Spread2(Bits(SplitBits2D32(x), 64), Bits(x, 32));
  }

  lemma Spread2(z: Word, w: Word)
    requires |z| == 64 && |w| == 32 && forall i :: 0 <= i < 32 ==> z[2 * i] == w[i] && !z[2 * i + 1]
    ensures z == SplitBits(w, 2, 32)
  {
    forall j | 0 <= j < 64 ensures z[j] == SplitBits(w, 2, 32)[j] {
      assert j == 2 * (j / 2) || j == 2 * (j / 2) + 1;
    }
  }

  // ---------- codes of two coordinates ----------

  lemma Codes0(x: bv64, y: bv64)
    ensures var z := ToMorton2D32(x, y);
      && Bit(z, 0) == Bit(x, 0) && Bit(z, 1) == Bit(y, 0)
      && Bit(z, 2) == Bit(x, 1) && Bit(z, 3) == Bit(y, 1)
      && Bit(z, 4) == Bit(x, 2) && Bit(z, 5) == Bit(y, 2)
      && Bit(z, 6) == Bit(x, 3) && Bit(z, 7) == Bit(y, 3)
  {
  }

  lemma Codes4(x: bv64, y: bv64)
    ensures var z := ToMorton2D32(x, y);
      && Bit(z, 8) == Bit(x, 4) && Bit(z, 9) == Bit(y, 4)
      && Bit(z, 10) == Bit(x, 5) && Bit(z, 11) == Bit(y, 5)
      && Bit(z, 12) == Bit(x, 6) && Bit(z, 13) == Bit(y, 6)
      && Bit(z, 14) == Bit(x, 7) && Bit(z, 15) == Bit(y, 7)
  {
  }

  lemma Codes8(x: bv64, y: bv64)
    ensures var z := ToMorton2D32(x, y);
      && Bit(z, 16) == Bit(x, 8) && Bit(z, 17) == Bit(y, 8)
      && Bit(z, 18) == Bit(x, 9) && Bit(z, 19) == Bit(y, 9)
      && Bit(z, 20) == Bit(x, 10) && Bit(z, 21) == Bit(y, 10)
      && Bit(z, 22) == Bit(x, 11) && Bit(z, 23) == Bit(y, 11)
  {
  }

  lemma Codes12(x: bv64, y: bv64)
    ensures var z := ToMorton2D32(x, y);
      && Bit(z, 24) == Bit(x, 12) && Bit(z, 25) == Bit(y, 12)
      && Bit(z, 26) == Bit(x, 13) && Bit(z, 27) == Bit(y, 13)
      && Bit(z, 28) == Bit(x, 14) && Bit(z, 29) == Bit(y, 14)
      && Bit(z, 30) == Bit(x, 15) && Bit(z, 31) == Bit(y, 15)
  {
  }

  lemma Codes16(x: bv64, y: bv64)
    ensures var z := ToMorton2D32(x, y);
      && Bit(z, 32) == Bit(x, 16) && Bit(z, 33) == Bit(y, 16)
      && Bit(z, 34) == Bit(x, 17) && Bit(z, 35) == Bit(y, 17)
      && Bit(z, 36) == Bit(x, 18) && Bit(z, 37) == Bit(y, 18)
      && Bit(z, 38) == Bit(x, 19) && Bit(z, 39) == Bit(y, 19)
  {
  }

  lemma Codes20(x: bv64, y: bv64)
    ensures var z := ToMorton2D32(x, y);
      && Bit(z, 40) == Bit(x, 20) && Bit(z, 41) == Bit(y, 20)
      && Bit(z, 42) == Bit(x, 21) && Bit(z, 43) == Bit(y, 21)
      && Bit(z, 44) == Bit(x, 22) && Bit(z, 45) == Bit(y, 22)
      && Bit(z, 46) == Bit(x, 23) && Bit(z, 47) == Bit(y, 23)
  {
  }

  lemma Codes24(x: bv64, y: bv64)
    ensures var z := ToMorton2D32(x, y);
      && Bit(z, 48) == Bit(x, 24) && Bit(z, 49) == Bit(y, 24)
      && Bit(z, 50) == Bit(x, 25) && Bit(z, 51) == Bit(y, 25)
      && Bit(z, 52) == Bit(x, 26) && Bit(z, 53) == Bit(y, 26)
      && Bit(z, 54) == Bit(x, 27) && Bit(z, 55) == Bit(y, 27)
  {
  }

  lemma Codes28(x: bv64, y: bv64)
    ensures var z := ToMorton2D32(x, y); Bit(z, 56) == Bit(x, 28) && Bit(z, 57) == Bit(y, 28)
  {
  }

  lemma Codes29(x: bv64, y: bv64)
    ensures var z := ToMorton2D32(x, y); Bit(z, 58) == Bit(x, 29) && Bit(z, 59) == Bit(y, 29)
  {
  }

  lemma Codes30(x: bv64, y: bv64)
    ensures var z := ToMorton2D32(x, y); Bit(z, 60) == Bit(x, 30) && Bit(z, 61) == Bit(y, 30)
  {
  }

  lemma Codes31(x: bv64, y: bv64)
    ensures var z := ToMorton2D32(x, y); Bit(z, 62) == Bit(x, 31) && Bit(z, 63) == Bit(y, 31)
  {
  }

  lemma CodeAt(x: bv64, y: bv64, i: nat)
    requires i < 32
    ensures Bit(ToMorton2D32(x, y), 2 * i) == Bit(x, i) && Bit(ToMorton2D32(x, y), 2 * i + 1) == Bit(y, i)
  {
    hide Bit;
    hide ToMorton2D32;
    if i < 4 { Codes0(x, y); }
    else if i < 8 { Codes4(x, y); }
    else if i < 12 { Codes8(x, y); }
    else if i < 16 { Codes12(x, y); }
    else if i < 20 { Codes16(x, y); }
    else if i < 24 { Codes20(x, y); }
    else if i < 28 { Codes24(x, y); }
    else if i == 28 { Codes28(x, y); }
    else if i == 29 { Codes29(x, y); }
    else if i == 30 { Codes30(x, y); }
    else { Codes31(x, y); }
  }

  /** The code of two 32-bit numbers has those numbers as its coordinates. */
  lemma Code2D32(x: bv64, y: bv64)
    ensures var z := Bits(ToMorton2D32(x, y), 64);
      Coord(z, 0, 2, 32) == Bits(x, 32) && Coord(z, 1, 2, 32) == Bits(y, 32)
  {
    hide Bit;
    hide ToMorton2D32;
    var z := Bits(ToMorton2D32(x, y), 64);
    forall i | 0 <= i < 32 ensures Coord(z, 0, 2, 32)[i] == Bit(x, i) && Coord(z, 1, 2, 32)[i] == Bit(y, i) {
      CodeAt(x, y, i);
      assert Pos(i, 0, 2) == 2 * i && Pos(i, 1, 2) == 2 * i + 1;
    }
  }

  /** toMorton2D32 is monotone: ordered corners give a box for ComputeBigMin, and ordered codes. */
  lemma Monotone2D32(x: bv64, y: bv64, x': bv64, y': bv64)
    requires Value(Bits(x, 32)) <= Value(Bits(x', 32)) && Value(Bits(y, 32)) <= Value(Bits(y', 32))
    ensures Below(Bits(ToMorton2D32(x, y), 64), Bits(ToMorton2D32(x', y'), 64), 2, 32)
    ensures Value(Bits(ToMorton2D32(x, y), 64)) <= Value(Bits(ToMorton2D32(x', y'), 64))
  {
    hide Bit;
    hide ToMorton2D32;
    hide Value;
    Code2D32(x, y);
    Code2D32(x', y');
    var z, z' := Bits(ToMorton2D32(x, y), 64), Bits(ToMorton2D32(x', y'), 64);
    hide Bits;
    forall d | 0 <= d < 2 ensures Value(Coord(z, d, 2, 32)) <= Value(Coord(z', d, 2, 32)) {
      assert d == 0 || d == 1;
    }
    MortonMonotone(z, z', 2, 32);
  }

  // ---------- eight coordinates of 8 bits ----------

  type Bytes = (bv64, bv64, bv64, bv64, bv64, bv64, bv64, bv64)

  function SplitBits8D8(x: bv64): bv64 {
    var x := x & 0xff;
    var x := (x | (x << 32)) & 0x00000e00000001f;
    var x := (x | (x << 16)) & 0x080006000180007;
    var x := (x | (x << 8)) & 0x080402010080403;
    var x := (x | (x << 4)) & 0x080402100804021;
    var x := (x | (x << 2)) & 0x081008100810081;
    (x | (x << 1)) & 0x101010101010101
  }

  function CombineBits8D8(x: bv64): bv64 {
    (x & 0x1)
    | ((x & 0x100) >> 7)
    | ((x & 0x1_0000) >> 14)
    | ((x & 0x100_0000) >> 21)
    | ((x & 0x1_0000_0000) >> 28)
    | ((x & 0x100_0000_0000) >> 35)
    | ((x & 0x1_0000_0000_0000) >> 42)
    | ((x & 0x100_0000_0000_0000) >> 49)
  }

  function ToMorton8D8(v: Bytes): bv64 {
    SplitBits8D8(v.0) | (SplitBits8D8(v.1) << 1) | (SplitBits8D8(v.2) << 2) | (SplitBits8D8(v.3) << 3)
    | (SplitBits8D8(v.4) << 4) | (SplitBits8D8(v.5) << 5) | (SplitBits8D8(v.6) << 6) | (SplitBits8D8(v.7) << 7)
  }

  function FromMorton8D8(z: bv64): (r: Bytes)
    ensures ToMorton8D8(r) == z
  {
    (CombineBits8D8(z), CombineBits8D8(z >> 1), CombineBits8D8(z >> 2), CombineBits8D8(z >> 3),
     CombineBits8D8(z >> 4), CombineBits8D8(z >> 5), CombineBits8D8(z >> 6), CombineBits8D8(z >> 7))
  }

  lemma RoundTrip8D8(v: Bytes)
    requires v.0 <= 0xff && v.1 <= 0xff && v.2 <= 0xff && v.3 <= 0xff && v.4 <= 0xff && v.5 <= 0xff && v.6 <= 0xff && v.7 <= 0xff
    ensures FromMorton8D8(ToMorton8D8(v)) == v
  {
  }

  lemma SplitsOf0(x: bv64)
    ensures var z := SplitBits8D8(x);
      && Bit(z, 0) == Bit(x, 0) && !Bit(z, 1) && !Bit(z, 2) && !Bit(z, 3) && !Bit(z, 4) && !Bit(z, 5) && !Bit(z, 6) && !Bit(z, 7)
  {
  }

  lemma SplitsOf1(x: bv64)
    ensures var z := SplitBits8D8(x);
      && Bit(z, 8) == Bit(x, 1) && !Bit(z, 9) && !Bit(z, 10) && !Bit(z, 11) && !Bit(z, 12) && !Bit(z, 13) && !Bit(z, 14) && !Bit(z, 15)
  {
  }

  lemma SplitsOf2(x: bv64)
    ensures var z := SplitBits8D8(x);
      && Bit(z, 16) == Bit(x, 2) && !Bit(z, 17) && !Bit(z, 18) && !Bit(z, 19) && !Bit(z, 20) && !Bit(z, 21) && !Bit(z, 22) && !Bit(z, 23)
  {
  }

  lemma SplitsOf3(x: bv64)
    ensures var z := SplitBits8D8(x);
      && Bit(z, 24) == Bit(x, 3) && !Bit(z, 25) && !Bit(z, 26) && !Bit(z, 27) && !Bit(z, 28) && !Bit(z, 29) && !Bit(z, 30) && !Bit(z, 31)
  {
  }

  lemma SplitsOf4(x: bv64)
    ensures var z := SplitBits8D8(x);
      && Bit(z, 32) == Bit(x, 4) && !Bit(z, 33) && !Bit(z, 34) && !Bit(z, 35) && !Bit(z, 36) && !Bit(z, 37) && !Bit(z, 38) && !Bit(z, 39)
  {
  }

  lemma SplitsOf5(x: bv64)
    ensures var z := SplitBits8D8(x);
      && Bit(z, 40) == Bit(x, 5) && !Bit(z, 41) && !Bit(z, 42) && !Bit(z, 43) && !Bit(z, 44) && !Bit(z, 45) && !Bit(z, 46) && !Bit(z, 47)
  {
  }

  lemma SplitsOf6(x: bv64)
    ensures var z := SplitBits8D8(x);
      && Bit(z, 48) == Bit(x, 6) && !Bit(z, 49) && !Bit(z, 50) && !Bit(z, 51) && !Bit(z, 52) && !Bit(z, 53) && !Bit(z, 54) && !Bit(z, 55)
  {
  }

  lemma SplitsOf7(x: bv64)
    ensures var z := SplitBits8D8(x);
      && Bit(z, 56) == Bit(x, 7) && !Bit(z, 57) && !Bit(z, 58) && !Bit(z, 59) && !Bit(z, 60) && !Bit(z, 61) && !Bit(z, 62) && !Bit(z, 63)
  {
  }

  lemma SplitAt8D8(x: bv64, i: nat, d: nat)
    requires i < 8 && d < 8
    ensures Bit(SplitBits8D8(x), 8 * i + d) == (d == 0 && Bit(x, i))
  {
    hide Bit;
    hide SplitBits8D8;
    if i == 0 { SplitsOf0(x); }
    else if i == 1 { SplitsOf1(x); }
    else if i == 2 { SplitsOf2(x); }
    else if i == 3 { SplitsOf3(x); }
    else if i == 4 { SplitsOf4(x); }
    else if i == 5 { SplitsOf5(x); }
    else if i == 6 { SplitsOf6(x); }
    else if i == 7 { SplitsOf7(x); }
  }

  /** The ladder is splitBits for eight dimensions. */
  lemma Ladder8D8(x: bv64)
    ensures Bits(SplitBits8D8(x), 64) == SplitBits(Bits(x, 8), 8, 8)
  {
    hide SplitBits8D8;
    hide Bit;
    var z, w := Bits(SplitBits8D8(x), 64), Bits(x, 8);
    forall j | 0 <= j < 64 ensures z[j] == SplitBits(w, 8, 8)[j] {
      var i, d := j / 8, j % 8;
      SplitAt8D8(x, i, d);
    }
  }

  // ---------- codes of eight coordinates ----------

  function Nth(v: Bytes, d: nat): bv64
    requires d < 8
  {
    if d == 0 then v.0 else if d == 1 then v.1 else if d == 2 then v.2 else if d == 3 then v.3
    else if d == 4 then v.4 else if d == 5 then v.5 else if d == 6 then v.6 else v.7
  }

  lemma CodesOf0(v: Bytes)
    ensures var z := ToMorton8D8(v);
      && Bit(z, 0) == Bit(v.0, 0) && Bit(z, 1) == Bit(v.1, 0) && Bit(z, 2) == Bit(v.2, 0) && Bit(z, 3) == Bit(v.3, 0)
      && Bit(z, 4) == Bit(v.4, 0) && Bit(z, 5) == Bit(v.5, 0) && Bit(z, 6) == Bit(v.6, 0) && Bit(z, 7) == Bit(v.7, 0)
  {
  }

  lemma CodesOf1(v: Bytes)
    ensures var z := ToMorton8D8(v);
      && Bit(z, 8) == Bit(v.0, 1) && Bit(z, 9) == Bit(v.1, 1) && Bit(z, 10) == Bit(v.2, 1) && Bit(z, 11) == Bit(v.3, 1)
      && Bit(z, 12) == Bit(v.4, 1) && Bit(z, 13) == Bit(v.5, 1) && Bit(z, 14) == Bit(v.6, 1) && Bit(z, 15) == Bit(v.7, 1)
  {
  }

  lemma CodesOf2(v: Bytes)
    ensures var z := ToMorton8D8(v);
      && Bit(z, 16) == Bit(v.0, 2) && Bit(z, 17) == Bit(v.1, 2) && Bit(z, 18) == Bit(v.2, 2) && Bit(z, 19) == Bit(v.3, 2)
      && Bit(z, 20) == Bit(v.4, 2) && Bit(z, 21) == Bit(v.5, 2) && Bit(z, 22) == Bit(v.6, 2) && Bit(z, 23) == Bit(v.7, 2)
  {
  }

  lemma CodesOf3(v: Bytes)
    ensures var z := ToMorton8D8(v);
      && Bit(z, 24) == Bit(v.0, 3) && Bit(z, 25) == Bit(v.1, 3) && Bit(z, 26) == Bit(v.2, 3) && Bit(z, 27) == Bit(v.3, 3)
      && Bit(z, 28) == Bit(v.4, 3) && Bit(z, 29) == Bit(v.5, 3) && Bit(z, 30) == Bit(v.6, 3) && Bit(z, 31) == Bit(v.7, 3)
  {
  }

  lemma CodesOf4(v: Bytes)
    ensures var z := ToMorton8D8(v);
      && Bit(z, 32) == Bit(v.0, 4) && Bit(z, 33) == Bit(v.1, 4) && Bit(z, 34) == Bit(v.2, 4) && Bit(z, 35) == Bit(v.3, 4)
      && Bit(z, 36) == Bit(v.4, 4) && Bit(z, 37) == Bit(v.5, 4) && Bit(z, 38) == Bit(v.6, 4) && Bit(z, 39) == Bit(v.7, 4)
  {
  }

  lemma CodesOf5(v: Bytes)
    ensures var z := ToMorton8D8(v);
      && Bit(z, 40) == Bit(v.0, 5) && Bit(z, 41) == Bit(v.1, 5) && Bit(z, 42) == Bit(v.2, 5) && Bit(z, 43) == Bit(v.3, 5)
      && Bit(z, 44) == Bit(v.4, 5) && Bit(z, 45) == Bit(v.5, 5) && Bit(z, 46) == Bit(v.6, 5) && Bit(z, 47) == Bit(v.7, 5)
  {
  }

  lemma CodesOf6(v: Bytes)
    ensures var z := ToMorton8D8(v);
      && Bit(z, 48) == Bit(v.0, 6) && Bit(z, 49) == Bit(v.1, 6) && Bit(z, 50) == Bit(v.2, 6) && Bit(z, 51) == Bit(v.3, 6)
      && Bit(z, 52) == Bit(v.4, 6) && Bit(z, 53) == Bit(v.5, 6) && Bit(z, 54) == Bit(v.6, 6) && Bit(z, 55) == Bit(v.7, 6)
  {
  }

  lemma CodesOf7(v: Bytes)
    ensures var z := ToMorton8D8(v);
      && Bit(z, 56) == Bit(v.0, 7) && Bit(z, 57) == Bit(v.1, 7) && Bit(z, 58) == Bit(v.2, 7) && Bit(z, 59) == Bit(v.3, 7)
      && Bit(z, 60) == Bit(v.4, 7) && Bit(z, 61) == Bit(v.5, 7) && Bit(z, 62) == Bit(v.6, 7) && Bit(z, 63) == Bit(v.7, 7)
  {
  }

  lemma CodeByteAt(v: Bytes, i: nat, d: nat)
    requires i < 8 && d < 8
    ensures Bit(ToMorton8D8(v), 8 * i + d) == Bit(Nth(v, d), i)
  {
    hide Bit;
    hide ToMorton8D8;
    if i == 0 { CodesOf0(v); }
    else if i == 1 { CodesOf1(v); }
    else if i == 2 { CodesOf2(v); }
    else if i == 3 { CodesOf3(v); }
    else if i == 4 { CodesOf4(v); }
    else if i == 5 { CodesOf5(v); }
    else if i == 6 { CodesOf6(v); }
    else if i == 7 { CodesOf7(v); }
  }

  /** The code of eight bytes has those bytes as its coordinates. */
  lemma Code8D8(v: Bytes, d: nat)
    requires d < 8
    ensures Coord(Bits(ToMorton8D8(v), 64), d, 8, 8) == Bits(Nth(v, d), 8)
  {
    hide Bit;
    hide ToMorton8D8;
    var z := Bits(ToMorton8D8(v), 64);
    forall i | 0 <= i < 8 ensures Coord(z, d, 8, 8)[i] == Bit(Nth(v, d), i) {
      CodeByteAt(v, i, d);
      assert Pos(i, d, 8) == 8 * i + d;
    }
  }

  /** toMorton8D8 is monotone in all eight coordinates, in the same way. */
  lemma Monotone8D8(v: Bytes, v': Bytes)
    requires forall d :: 0 <= d < 8 ==> Value(Bits(Nth(v, d), 8)) <= Value(Bits(Nth(v', d), 8))
    ensures Below(Bits(ToMorton8D8(v), 64), Bits(ToMorton8D8(v'), 64), 8, 8)
    ensures Value(Bits(ToMorton8D8(v), 64)) <= Value(Bits(ToMorton8D8(v'), 64))
  {
    hide Bit;
    hide ToMorton8D8;
    hide Value;
    hide Nth;
    var z, z' := Bits(ToMorton8D8(v), 64), Bits(ToMorton8D8(v'), 64);
    forall d | 0 <= d < 8 ensures Value(Coord(z, d, 8, 8)) <= Value(Coord(z', d, 8, 8)) {
      Code8D8(v, d);
      Code8D8(v', d);
    }
    MortonMonotone(z, z', 8, 8);
  }
}
