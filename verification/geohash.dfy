/** Geohashes of common/geohash.cc: cells as bisected intervals, and the neighbour tables. */
module GeoHash {
  import opened Bits

  // ---------- the alphabet and the tables ----------

  /** BASE32.find; 32 for a character that is not in the alphabet. */
  function Digit(c: char): nat {
    match c
    case '0' => 0 case '1' => 1 case '2' => 2 case '3' => 3 case '4' => 4 case '5' => 5 case '6' => 6 case '7' => 7
    case '8' => 8 case '9' => 9 case 'b' => 10 case 'c' => 11 case 'd' => 12 case 'e' => 13 case 'f' => 14 case 'g' => 15
    case 'h' => 16 case 'j' => 17 case 'k' => 18 case 'm' => 19 case 'n' => 20 case 'p' => 21 case 'q' => 22 case 'r' => 23
    case 's' => 24 case 't' => 25 case 'u' => 26 case 'v' => 27 case 'w' => 28 case 'x' => 29 case 'y' => 30 case 'z' => 31
    case _ => 32
  }

  /** BASE32[d] */
  function Char(d: nat): char {
    match d
    case 0 => '0' case 1 => '1' case 2 => '2' case 3 => '3' case 4 => '4' case 5 => '5' case 6 => '6' case 7 => '7'
    case 8 => '8' case 9 => '9' case 10 => 'b' case 11 => 'c' case 12 => 'd' case 13 => 'e' case 14 => 'f' case 15 => 'g'
    case 16 => 'h' case 17 => 'j' case 18 => 'k' case 19 => 'm' case 20 => 'n' case 21 => 'p' case 22 => 'q' case 23 => 'r'
    case 24 => 's' case 25 => 't' case 26 => 'u' case 27 => 'v' case 28 => 'w' case 29 => 'x' case 30 => 'y' case 31 => 'z'
    case _ => ' '
  }

  /** find in the table that adds one to the three bits of the wide part. */
  function FindWideUp(c: char): nat {
    match c
    case 'p' => 0 case '0' => 1 case 'r' => 2 case '2' => 3 case '1' => 4 case '4' => 5 case '3' => 6 case '6' => 7
    case 'x' => 8 case '8' => 9 case 'z' => 10 case 'b' => 11 case '9' => 12 case 'd' => 13 case 'c' => 14 case 'f' => 15
    case '5' => 16 case 'h' => 17 case '7' => 18 case 'k' => 19 case 'j' => 20 case 'n' => 21 case 'm' => 22 case 'q' => 23
    case 'e' => 24 case 's' => 25 case 'g' => 26 case 'u' => 27 case 't' => 28 case 'w' => 29 case 'v' => 30 case 'y' => 31
    case _ => 32
  }

  /** The same for the two bits of the narrow part. */
  function FindNarrowUp(c: char): nat {
    match c
    case 'b' => 0 case 'c' => 1 case '0' => 2 case '1' => 3 case 'f' => 4 case 'g' => 5 case '4' => 6 case '5' => 7
    case '2' => 8 case '3' => 9 case '8' => 10 case '9' => 11 case '6' => 12 case '7' => 13 case 'd' => 14 case 'e' => 15
    case 'u' => 16 case 'v' => 17 case 'h' => 18 case 'j' => 19 case 'y' => 20 case 'z' => 21 case 'n' => 22 case 'p' => 23
    case 'k' => 24 case 'm' => 25 case 's' => 26 case 't' => 27 case 'q' => 28 case 'r' => 29 case 'w' => 30 case 'x' => 31
    case _ => 32
  }

  /** Subtracting one from the wide part. */
  function FindWideDown(c: char): nat {
    match c
    case '1' => 0 case '4' => 1 case '3' => 2 case '6' => 3 case '5' => 4 case 'h' => 5 case '7' => 6 case 'k' => 7
    case '9' => 8 case 'd' => 9 case 'c' => 10 case 'f' => 11 case 'e' => 12 case 's' => 13 case 'g' => 14 case 'u' => 15
    case 'j' => 16 case 'n' => 17 case 'm' => 18 case 'q' => 19 case 'p' => 20 case '0' => 21 case 'r' => 22 case '2' => 23
    case 't' => 24 case 'w' => 25 case 'v' => 26 case 'y' => 27 case 'x' => 28 case '8' => 29 case 'z' => 30 case 'b' => 31
    case _ => 32
  }

  /** Subtracting one from the narrow part. */
  function FindNarrowDown(c: char): nat {
    match c
    case '2' => 0 case '3' => 1 case '8' => 2 case '9' => 3 case '6' => 4 case '7' => 5 case 'd' => 6 case 'e' => 7
    case 'b' => 8 case 'c' => 9 case '0' => 10 case '1' => 11 case 'f' => 12 case 'g' => 13 case '4' => 14 case '5' => 15
    case 'k' => 16 case 'm' => 17 case 's' => 18 case 't' => 19 case 'q' => 20 case 'r' => 21 case 'w' => 22 case 'x' => 23
    case 'u' => 24 case 'v' => 25 case 'h' => 26 case 'j' => 27 case 'y' => 28 case 'z' => 29 case 'n' => 30 case 'p' => 31
    case _ => 32
  }

  /** The first, third and fifth bit of a digit. */
  function Wide(d: nat): nat {
    match d
    case 0 => 0 case 1 => 1 case 2 => 0 case 3 => 1 case 4 => 2 case 5 => 3 case 6 => 2 case 7 => 3
    case 8 => 0 case 9 => 1 case 10 => 0 case 11 => 1 case 12 => 2 case 13 => 3 case 14 => 2 case 15 => 3
    case 16 => 4 case 17 => 5 case 18 => 4 case 19 => 5 case 20 => 6 case 21 => 7 case 22 => 6 case 23 => 7
    case 24 => 4 case 25 => 5 case 26 => 4 case 27 => 5 case 28 => 6 case 29 => 7 case 30 => 6 case 31 => 7
    case _ => 0
  }

  /** The second and fourth bit. */
  function Narrow(d: nat): nat {
    match d
    case 0 => 0 case 1 => 0 case 2 => 1 case 3 => 1 case 4 => 0 case 5 => 0 case 6 => 1 case 7 => 1
    case 8 => 2 case 9 => 2 case 10 => 3 case 11 => 3 case 12 => 2 case 13 => 2 case 14 => 3 case 15 => 3
    case 16 => 0 case 17 => 0 case 18 => 1 case 19 => 1 case 20 => 0 case 21 => 0 case 22 => 1 case 23 => 1
    case 24 => 2 case 25 => 2 case 26 => 3 case 27 => 3 case 28 => 2 case 29 => 2 case 30 => 3 case 31 => 3
    case _ => 0
  }

  datatype Direction = North | South | East | West

  /** neighbour[direction][type].find(c); odd says that the hash has an odd number of characters. */
  function Neighbour(dir: Direction, odd: bool, c: char): nat {
    match dir
    case North => if odd then FindNarrowUp(c) else FindWideUp(c)
    case South => if odd then FindNarrowDown(c) else FindWideDown(c)
    case East => if odd then FindWideUp(c) else FindNarrowUp(c)
    case West => if odd then FindWideDown(c) else FindNarrowDown(c)
  }

  /** border[direction][type].find(c) != npos */
  predicate Border(dir: Direction, odd: bool, c: char) {
    match dir
    case North => if odd then c in {'b', 'c', 'f', 'g', 'u', 'v', 'y', 'z'} else c in {'p', 'r', 'x', 'z'}
    case South => if odd then c in {'0', '1', '4', '5', 'h', 'j', 'n', 'p'} else c in {'0', '2', '8', 'b'}
    case East => if odd then c in {'p', 'r', 'x', 'z'} else c in {'b', 'c', 'f', 'g', 'u', 'v', 'y', 'z'}
    case West => if odd then c in {'0', '2', '8', 'b'} else c in {'0', '1', '4', '5', 'h', 'j', 'n', 'p'}
  }

  /** One step around a ring of the given size. */
  function Bump(x: nat, up: bool, size: nat): nat
    requires x < size
  {
    if up then (if x + 1 == size then 0 else x + 1) else (if x == 0 then size - 1 else x - 1)
  }

  lemma DigitChar(d: nat)
    requires d < 32
    ensures Digit(Char(d)) == d
  {
  }

  lemma Parts(d: nat)
    requires d < 32
    ensures Wide(d) < 8 && Narrow(d) < 4
  {
  }

  lemma CharDigit(c: char)
    requires Digit(c) < 32
    ensures Char(Digit(c)) == c
  {
  }

  /** The digit with the parts w and n, where k is 4 * w + n. */
  function Join(k: nat): nat {
    match k
    case 0 => 0 case 1 => 2 case 2 => 8 case 3 => 10 case 4 => 1 case 5 => 3 case 6 => 9 case 7 => 11
    case 8 => 4 case 9 => 6 case 10 => 12 case 11 => 14 case 12 => 5 case 13 => 7 case 14 => 13 case 15 => 15
    case 16 => 16 case 17 => 18 case 18 => 24 case 19 => 26 case 20 => 17 case 21 => 19 case 22 => 25 case 23 => 27
    case 24 => 20 case 25 => 22 case 26 => 28 case 27 => 30 case 28 => 21 case 29 => 23 case 30 => 29 case 31 => 31
    case _ => 0
  }

  lemma JoinParts(d: nat)
    requires d < 32
    ensures Join(4 * Wide(d) + Narrow(d)) == d
  {
  }

  lemma WideUp(c: char)
    requires Digit(c) < 32
    ensures FindWideUp(c) < 32 && Wide(Digit(c)) < 8
    ensures Wide(FindWideUp(c)) == Bump(Wide(Digit(c)), true, 8) && Narrow(FindWideUp(c)) == Narrow(Digit(c))
  {
    match c
    case '0' => case '1' => case '2' => case '3' => case '4' => case '5' => case '6' => case '7' =>
    case '8' => case '9' => case 'b' => case 'c' => case 'd' => case 'e' => case 'f' => case 'g' =>
    case 'h' => case 'j' => case 'k' => case 'm' => case 'n' => case 'p' => case 'q' => case 'r' =>
    case 's' => case 't' => case 'u' => case 'v' => case 'w' => case 'x' => case 'y' => case 'z' => case _ =>
  }

  lemma NarrowUp(c: char)
    requires Digit(c) < 32
    ensures FindNarrowUp(c) < 32 && Narrow(Digit(c)) < 4
    ensures Narrow(FindNarrowUp(c)) == Bump(Narrow(Digit(c)), true, 4) && Wide(FindNarrowUp(c)) == Wide(Digit(c))
  {
    match c
    case '0' => case '1' => case '2' => case '3' => case '4' => case '5' => case '6' => case '7' =>
    case '8' => case '9' => case 'b' => case 'c' => case 'd' => case 'e' => case 'f' => case 'g' =>
    case 'h' => case 'j' => case 'k' => case 'm' => case 'n' => case 'p' => case 'q' => case 'r' =>
    case 's' => case 't' => case 'u' => case 'v' => case 'w' => case 'x' => case 'y' => case 'z' => case _ =>
  }

  lemma WideDown(c: char)
    requires Digit(c) < 32
    ensures FindWideDown(c) < 32 && Wide(Digit(c)) < 8
    ensures Wide(FindWideDown(c)) == Bump(Wide(Digit(c)), false, 8) && Narrow(FindWideDown(c)) == Narrow(Digit(c))
  {
    match c
    case '0' => case '1' => case '2' => case '3' => case '4' => case '5' => case '6' => case '7' =>
    case '8' => case '9' => case 'b' => case 'c' => case 'd' => case 'e' => case 'f' => case 'g' =>
    case 'h' => case 'j' => case 'k' => case 'm' => case 'n' => case 'p' => case 'q' => case 'r' =>
    case 's' => case 't' => case 'u' => case 'v' => case 'w' => case 'x' => case 'y' => case 'z' => case _ =>
  }

  lemma NarrowDown(c: char)
    requires Digit(c) < 32
    ensures FindNarrowDown(c) < 32 && Narrow(Digit(c)) < 4
    ensures Narrow(FindNarrowDown(c)) == Bump(Narrow(Digit(c)), false, 4) && Wide(FindNarrowDown(c)) == Wide(Digit(c))
  {
    match c
    case '0' => case '1' => case '2' => case '3' => case '4' => case '5' => case '6' => case '7' =>
    case '8' => case '9' => case 'b' => case 'c' => case 'd' => case 'e' => case 'f' => case 'g' =>
    case 'h' => case 'j' => case 'k' => case 'm' => case 'n' => case 'p' => case 'q' => case 'r' =>
    case 's' => case 't' => case 'u' => case 'v' => case 'w' => case 'x' => case 'y' => case 'z' => case _ =>
  }

  lemma Borders(c: char)
    requires Digit(c) < 32
    ensures c in {'p', 'r', 'x', 'z'} <==> Wide(Digit(c)) == 7
    ensures c in {'0', '2', '8', 'b'} <==> Wide(Digit(c)) == 0
    ensures c in {'b', 'c', 'f', 'g', 'u', 'v', 'y', 'z'} <==> Narrow(Digit(c)) == 3
    ensures c in {'0', '1', '4', '5', 'h', 'j', 'n', 'p'} <==> Narrow(Digit(c)) == 0
  {
    match c
    case '0' => case '1' => case '2' => case '3' => case '4' => case '5' => case '6' => case '7' =>
    case '8' => case '9' => case 'b' => case 'c' => case 'd' => case 'e' => case 'f' => case 'g' =>
    case 'h' => case 'j' => case 'k' => case 'm' => case 'n' => case 'p' => case 'q' => case 'r' =>
    case 's' => case 't' => case 'u' => case 'v' => case 'w' => case 'x' => case 'y' => case 'z' => case _ =>
  }

  // ---------- cells ----------

  predicate Valid(h: string) { forall i :: 0 <= i < |h| ==> Digit(h[i]) < 32 }

  function Odd(h: string): bool { |h| % 2 == 1 }

  /** Row and column of the cell: characters at odd places hold three bits of the longitude and two of the latitude. */
  function Lat(h: string): nat {
    if h == [] then 0 else
      var n := |h| - 1;
      if Odd(h) then 4 * Lat(h[..n]) + Narrow(Digit(h[n])) else 8 * Lat(h[..n]) + Wide(Digit(h[n]))
  }

  function Lon(h: string): nat {
    if h == [] then 0 else
      var n := |h| - 1;
      if Odd(h) then 8 * Lon(h[..n]) + Wide(Digit(h[n])) else 4 * Lon(h[..n]) + Narrow(Digit(h[n]))
  }

  /** Rows and columns of the grid of n character hashes. */
  function Rows(n: nat): nat {
    if n == 0 then 1 else Rows(n - 1) * if n % 2 == 1 then 4 else 8
  }

  function Columns(n: nat): nat {
    if n == 0 then 1 else Columns(n - 1) * if n % 2 == 1 then 8 else 4
  }

  lemma {:induction false} CellInGrid(h: string)
    requires Valid(h)
    ensures Lat(h) < Rows(|h|) && Lon(h) < Columns(|h|)
  {
    if h != [] {
      CellInGrid(h[..|h| - 1]);
      Parts(Digit(h[|h| - 1]));
    }
  }

  /** A hash is determined by its cell and length. */
  lemma {:induction false} CellInjective(g: string, h: string)
    requires Valid(g) && Valid(h) && |g| == |h| && Lat(g) == Lat(h) && Lon(g) == Lon(h)
    ensures g == h
  {
    hide Digit;
    hide Char;
    hide Wide;
    hide Narrow;
    hide Join;
    if g != [] {
      var n := |g| - 1;
      var d, e := Digit(g[n]), Digit(h[n]);
      Parts(d);
      Parts(e);
      assert Lat(g[..n]) == Lat(h[..n]) && Lon(g[..n]) == Lon(h[..n]) && Wide(d) == Wide(e) && Narrow(d) == Narrow(e);
      CellInjective(g[..n], h[..n]);
      JoinParts(d);
      JoinParts(e);
      CharDigit(g[n]);
      CharDigit(h[n]);
      assert g == g[..n] + [g[n]] && h == h[..n] + [h[n]];
    }
  }

  // ---------- neighbours ----------

  /** adjacent_calc_ on the first size characters of the buffer. */
  function Adjacent(h: string, dir: Direction): (r: string)
    requires h != []
    ensures |r| == |h|
    decreases |h|
  {
    var n := |h| - 1;
    var prefix := if Border(dir, Odd(h), h[n]) && n > 0 then Adjacent(h[..n], dir) else h[..n];
    prefix + [Char(Neighbour(dir, Odd(h), h[n]))]
  }

  method AdjacentCalc(buffer: array<char>, size: nat, dir: Direction)
    requires 0 < size <= buffer.Length && Valid(buffer[..size])
    modifies buffer
    ensures buffer[..size] == Adjacent(old(buffer[..size]), dir)
    ensures buffer[size..] == old(buffer[size..])
    decreases size
  {
    ghost var h := buffer[..size];
    var last := buffer[size - 1];
    assert h[..size - 1] == buffer[..size - 1];
    if Border(dir, size % 2 == 1, last) && size - 1 > 0 {
      AdjacentCalc(buffer, size - 1, dir);
      assert buffer[size..] == buffer[size - 1..][1..];
    }
    ghost var prefix := buffer[..size - 1];
    buffer[size - 1] := Char(Neighbour(dir, size % 2 == 1, last));
    assert buffer[..size] == prefix + [buffer[size - 1]];
  }

  predicate Up(dir: Direction) { dir == North || dir == East }

  predicate Vertical(dir: Direction) { dir == North || dir == South }

  /** What a step does to the parts of the last character, and when it carries. */
  lemma LastCharacter(dir: Direction, odd: bool, c: char)
    requires Digit(c) < 32
    ensures var d, e := Digit(c), Neighbour(dir, odd, c);
      && e < 32 && Wide(d) < 8 && Narrow(d) < 4
      && (if Vertical(dir) != odd
          then
            && Wide(e) == Bump(Wide(d), Up(dir), 8) && Narrow(e) == Narrow(d)
            && (Border(dir, odd, c) <==> Wide(d) == if Up(dir) then 7 else 0)
          else
            && Narrow(e) == Bump(Narrow(d), Up(dir), 4) && Wide(e) == Wide(d)
            && (Border(dir, odd, c) <==> Narrow(d) == if Up(dir) then 3 else 0))
  {
    hide Digit;
    hide Wide;
    hide Narrow;
    hide FindWideUp;
    hide FindWideDown;
    hide FindNarrowUp;
    hide FindNarrowDown;
    Parts(Digit(c));
    WideUp(c);
    WideDown(c);
    NarrowUp(c);
    NarrowDown(c);
    Borders(c);
  }

  /** Carrying: a step of k * p + x around a ring of k * size. */
  lemma Carry(p: nat, x: nat, k: nat, size: nat, up: bool)
    requires x < k && p < size && (k == 4 || k == 8)
    ensures k * p + x < size * k
    ensures Bump(k * p + x, up, size * k) ==
      if x == (if up then k - 1 else 0) then k * Bump(p, up, size) + Bump(x, up, k) else k * p + Bump(x, up, k)
  {
    if k == 4 {
    } else {
    }
  }

  /** adjacent moves exactly one of the two indices by one, around the grid. */
  lemma {:induction false} AdjacentMoves(h: string, dir: Direction)
    requires Valid(h) && h != []
    ensures Valid(Adjacent(h, dir)) && Lat(h) < Rows(|h|) && Lon(h) < Columns(|h|)
    ensures Lat(Adjacent(h, dir)) == if Vertical(dir) then Bump(Lat(h), Up(dir), Rows(|h|)) else Lat(h)
    ensures Lon(Adjacent(h, dir)) == if Vertical(dir) then Lon(h) else Bump(Lon(h), Up(dir), Columns(|h|))
    decreases |h|
  {
    hide Digit;
    hide Char;
    hide Wide;
    hide Narrow;
    hide Neighbour;
    hide Border;
    assert Bump(0, Up(dir), 1) == 0;
    hide Bump;
    var n, odd := |h| - 1, Odd(h);
    var c, rest := h[n], h[..n];
    var e := Neighbour(dir, odd, c);
    LastCharacter(dir, odd, c);
    CellInGrid(h);
    CellInGrid(rest);
    DigitChar(e);
    var r := Adjacent(h, dir);
    assert r[n] == Char(e);
    if n > 0 {
      AdjacentMoves(rest, dir);
    }
    var prefix := if Border(dir, odd, c) && n > 0 then Adjacent(rest, dir) else rest;
    assert r == prefix + [Char(e)] && r[..n] == prefix;
    Moved(h, r, dir, c, e);
  }

  lemma LastStep(h: string)
    requires h != []
    ensures var n, d := |h| - 1, Digit(h[|h| - 1]);
      && Lat(h) == (if Odd(h) then 4 * Lat(h[..n]) + Narrow(d) else 8 * Lat(h[..n]) + Wide(d))
      && Lon(h) == (if Odd(h) then 8 * Lon(h[..n]) + Wide(d) else 4 * Lon(h[..n]) + Narrow(d))
      && Rows(|h|) == (if Odd(h) then Rows(n) * 4 else Rows(n) * 8)
      && Columns(|h|) == (if Odd(h) then Columns(n) * 8 else Columns(n) * 4)
  {
  }

  lemma Moved(h: string, r: string, dir: Direction, c: char, e: nat)
    requires Valid(h) && h != [] && |r| == |h| && c == h[|h| - 1] && e == Neighbour(dir, Odd(h), c) && e < 32 && r[|h| - 1] == Char(e)
    requires Lat(h[..|h| - 1]) < Rows(|h| - 1) && Lon(h[..|h| - 1]) < Columns(|h| - 1) && Lat(h) < Rows(|h|) && Lon(h) < Columns(|h|)
    requires var p, q := h[..|h| - 1], r[..|h| - 1];
      && Valid(q)
      && Lat(q) == (if Vertical(dir) && Border(dir, Odd(h), c) then Bump(Lat(p), Up(dir), Rows(|p|)) else Lat(p))
      && Lon(q) == (if !Vertical(dir) && Border(dir, Odd(h), c) then Bump(Lon(p), Up(dir), Columns(|p|)) else Lon(p))
    ensures Valid(r)
    ensures Lat(r) == if Vertical(dir) then Bump(Lat(h), Up(dir), Rows(|h|)) else Lat(h)
    ensures Lon(r) == if Vertical(dir) then Lon(h) else Bump(Lon(h), Up(dir), Columns(|h|))
  {
    hide Lat;
    hide Lon;
    hide Rows;
    hide Columns;
    hide Digit;
    hide Char;
    hide Wide;
    hide Narrow;
    hide Neighbour;
    hide Border;
    hide Bump;
    var n := |h| - 1;
    LastCharacter(dir, Odd(h), c);
    DigitChar(e);
    assert Valid(r) by {
      assert r == r[..n] + [r[n]];
    }
    var d := Digit(c);
    var p, q := h[..n], r[..n];
    LastStep(h);
    LastStep(r);
    if Vertical(dir) {
      if Odd(h) {
        Carry(Lat(h[..n]), Narrow(d), 4, Rows(n), Up(dir));
      } else {
        Carry(Lat(h[..n]), Wide(d), 8, Rows(n), Up(dir));
      }
    } else {
      if Odd(h) {
        Carry(Lon(h[..n]), Wide(d), 8, Columns(n), Up(dir));
      } else {
        Carry(Lon(h[..n]), Narrow(d), 4, Columns(n), Up(dir));
      }
    }
  }

  function Opposite(dir: Direction): Direction {
    match dir case North => South case South => North case East => West case West => East
  }

  /** North undoes south and east undoes west, at every length. */
  lemma AdjacentInverse(h: string, dir: Direction)
    requires Valid(h) && h != []
    ensures Adjacent(Adjacent(h, dir), Opposite(dir)) == h
  {
    hide Lat;
    hide Lon;
    hide Rows;
    hide Columns;
    hide Adjacent;
    var g := Adjacent(h, dir);
    AdjacentMoves(h, dir);
    AdjacentMoves(g, Opposite(dir));
    CellInjective(Adjacent(g, Opposite(dir)), h);
  }

  // ---------- encode and decode ----------

  datatype Box = Box(latMin: real, latMax: real, lonMin: real, lonMax: real) {
    predicate Contains(lat: real, lon: real) { latMin <= lat <= latMax && lonMin <= lon <= lonMax }
  }

  const World: Box := Box(-90.0, 90.0, -180.0, 180.0)

  /** One bisection: even bits of the longitude, odd ones of the latitude. */
  function Bisect(b: Box, even: bool, up: bool): Box {
    if even then
      var mid := (b.lonMin + b.lonMax) / 2.0;
      if up then b.(lonMin := mid) else b.(lonMax := mid)
    else
      var mid := (b.latMin + b.latMax) / 2.0;
      if up then b.(latMin := mid) else b.(latMax := mid)
  }

  function Refine(bits: seq<bool>): Box {
    if bits == [] then World else Bisect(Refine(bits[..|bits| - 1]), |bits| % 2 == 1, bits[|bits| - 1])
  }

  /** The five bits of a digit, first the highest. */
  function Five(d: nat): seq<bool> {
    [d / 16 % 2 == 1, d / 8 % 2 == 1, d / 4 % 2 == 1, d / 2 % 2 == 1, d % 2 == 1]
  }

  /** The number with the given bits. */
  function Number(bits: seq<bool>): nat {
    if bits == [] then 0 else 2 * Number(bits[..|bits| - 1]) + Bit(bits[|bits| - 1])
  }

  lemma {:induction false} NumberNext(bits: seq<bool>, up: bool)
    ensures Number(bits + [up]) == 2 * Number(bits) + Bit(up)
  {
    assert (bits + [up])[..|bits|] == bits;
  }

  lemma {:induction false} FiveNumber(a: bool, b: bool, c: bool, d: bool, e: bool)
    ensures Number([a, b, c, d, e]) < 32 && Five(Number([a, b, c, d, e])) == [a, b, c, d, e]
  {
    hide Number;
    hide Five;
    var i, j, k, l, m := Bit(a), Bit(b), Bit(c), Bit(d), Bit(e);
    NumberNext([], a);
    NumberNext([a], b);
    NumberNext([a, b], c);
    NumberNext([a, b, c], d);
    NumberNext([a, b, c, d], e);
    assert [] + [a] == [a];
    assert [a] + [b] == [a, b];
    assert [a, b] + [c] == [a, b, c];
    assert [a, b, c] + [d] == [a, b, c, d];
    assert [a, b, c, d] + [e] == [a, b, c, d, e];
    NumberNone();
    assert Number([a, b, c, d, e]) == 16 * i + 8 * j + 4 * k + 2 * l + m;
    FiveOf(i, j, k, l, m);
  }

  function Bit(b: bool): nat { if b then 1 else 0 }

  lemma NumberNone()
    ensures Number([]) == 0
  {
  }

  lemma {:induction false} FiveOf(i: nat, j: nat, k: nat, l: nat, m: nat)
    requires i < 2 && j < 2 && k < 2 && l < 2 && m < 2
    ensures Five(16 * i + 8 * j + 4 * k + 2 * l + m) == [i == 1, j == 1, k == 1, l == 1, m == 1]
  {
  }

  lemma DigitRange(c: char)
    ensures Digit(c) <= 32
  {
  }

  function BitsOf(h: string): (bits: seq<bool>)
    ensures |bits| == 5 * |h|
  {
    if h == [] then [] else BitsOf(h[..|h| - 1]) + Five(Digit(h[|h| - 1]))
  }

  function Cell(h: string): Box { Refine(BitsOf(h)) }

  lemma {:induction false} RefineNext(bits: seq<bool>, up: bool)
    ensures Refine(bits + [up]) == Bisect(Refine(bits), |bits| % 2 == 0, up)
  {
    hide Bisect;
    var more := bits + [up];
    assert |more| == |bits| + 1 && more[..|bits|] == bits && more[|bits|] == up;
  }

  lemma {:induction false} BitsNext(h: string, c: char)
    ensures BitsOf(h + [c]) == BitsOf(h) + Five(Digit(c))
  {
    assert (h + [c])[..|h|] == h;
  }

  datatype Result<T> = Ok(value: T) | InvalidGeohash

  /** decode: an unknown character is an error. */
  method Decode(hash: string) returns (r: Result<Box>)
    requires 0 < |hash|
    ensures r == if Valid(hash) then Ok(Cell(hash)) else InvalidGeohash
  {
    hide Bisect;
    hide Digit;
    hide Five;
    hide Refine;
    var even, box := true, World;
    EncodeStart();
    assert hash[..0] == [] && BitsOf([]) + [] == BitsOf([]);
    for i := 0 to |hash|
      invariant Valid(hash[..i]) && box == Cell(hash[..i]) && even == (i % 2 == 0)
    {
      var idx := Digit(hash[i]);
      DigitRange(hash[i]);
      if idx == 32 {
        return InvalidGeohash;
      }
      BitsNext(hash[..i], hash[i]);
      assert hash[..i + 1] == hash[..i] + [hash[i]];
      box, even := DecodeDigit(box, idx, even, BitsOf(hash[..i]));
    }
    assert hash[..|hash|] == hash;
    return Ok(box);
  }

  /** The five bits of one character. */
  method DecodeDigit(b: Box, idx: nat, even: bool, ghost bits: seq<bool>) returns (box: Box, even': bool)
    requires b == Refine(bits) && even == (|bits| % 2 == 0)
    ensures box == Refine(bits + Five(idx)) && even' != even
  {
    hide Bisect;
    hide Refine;
    box, even' := b, even;
    var n := 5;
    ghost var done: seq<bool> := [];
    assert bits + done == bits;
    while n > 0
      invariant 0 <= n <= 5 && done == Five(idx)[..5 - n] && box == Refine(bits + done) && even' == ((|bits| + 5 - n) % 2 == 0)
    {
      n := n - 1;
      var up := idx / Pow2(n) % 2 == 1;
      BitAt(idx, n);
      RefineNext(bits + done, up);
      assert bits + done + [up] == bits + (done + [up]);
      assert Five(idx)[..5 - n] == done + [up];
      done := done + [up];
      box := Bisect(box, even', up);
      even' := !even';
    }
    assert Five(idx)[..5] == Five(idx);
  }

  lemma {:induction false} BitAt(d: nat, n: nat)
    requires n < 5
    ensures Five(d)[4 - n] == (d / Pow2(n) % 2 == 1)
  {
    assert Pow2(0) == 1 && Pow2(1) == 2 && Pow2(2) == 4 && Pow2(3) == 8 && Pow2(4) == 16;
  }

  /** The point belongs to the box: on a border it belongs to the north and to the east. What lies outside the world
      belongs to the boxes at its edge. */
  predicate Owns(b: Box, lat: real, lon: real) {
    && (lat >= b.latMin || b.latMin == -90.0) && (lat < b.latMax || b.latMax == 90.0)
    && (lon >= b.lonMin || b.lonMin == -180.0) && (lon < b.lonMax || b.lonMax == 180.0)
  }

  predicate Tracks(b: Box, lat: real, lon: real) {
    && Owns(b, lat, lon) && b.latMin < b.latMax && b.lonMin < b.lonMax
    && -90.0 <= b.latMin && b.latMax <= 90.0 && -180.0 <= b.lonMin && b.lonMax <= 180.0
  }

  lemma TracksBisect(b: Box, lat: real, lon: real, even: bool)
    requires Tracks(b, lat, lon)
    ensures Tracks(Bisect(b, even, if even then lon >= (b.lonMin + b.lonMax) / 2.0 else lat >= (b.latMin + b.latMax) / 2.0), lat, lon)
  {
  }

  const MAX_SIZE: nat := 12

  /** encode: the point belongs to the cell of the result, which contains it exactly when it lies in the world. */
  method Encode(lat: real, lon: real, precision: nat) returns (hash: string)
    requires 0 < precision <= MAX_SIZE
    ensures |hash| == precision && Valid(hash)
    ensures Owns(Cell(hash), lat, lon)
    ensures Cell(hash).Contains(lat, lon) <==> World.Contains(lat, lon)
  {
    hide Bisect;
    hide Refine;
    hide Digit;
    hide Number;
    hide Char;
    hide Five;
    hide BitsOf;
    var idx: nat, bit, even, box := 0, 0, true, World;
    hash := [];
    ghost var p: seq<bool> := [];
    EncodeStart();
    while |hash| < precision
      invariant |hash| <= precision && Valid(hash) && 0 <= bit < 5 && |p| == bit && idx == Number(p)
      invariant |hash| == precision ==> p == []
      invariant box == Refine(BitsOf(hash) + p) && even == ((5 * |hash| + bit) % 2 == 0) && Tracks(box, lat, lon)
      decreases 5 * (precision - |hash|) - bit
    {
      var up := if even then lon >= (box.lonMin + box.lonMax) / 2.0 else lat >= (box.latMin + box.latMax) / 2.0;
      TracksBisect(box, lat, lon, even);
      RefineNext(BitsOf(hash) + p, up);
      NumberNext(p, up);
      assert BitsOf(hash) + p + [up] == BitsOf(hash) + (p + [up]);
      idx := if up then idx * 2 + 1 else idx * 2;
      box := Bisect(box, even, up);
      p := p + [up];
      even := !even;
      bit := bit + 1;
      if bit == 5 {
        EncodeCharacter(hash, p, idx);
        hash := hash + [Char(idx)];
        bit, idx, p := 0, 0, [];
      }
    }
    assert BitsOf(hash) + p == BitsOf(hash);
  }

  lemma EncodeStart()
    ensures Refine(BitsOf([]) + []) == World && Number([]) == 0
  {
  }

  lemma EncodeCharacter(hash: string, p: seq<bool>, idx: nat)
    requires |p| == 5 && idx == Number(p) && Valid(hash)
    ensures Valid(hash + [Char(idx)]) && BitsOf(hash + [Char(idx)]) + [] == BitsOf(hash) + p && Number([]) == 0
  {
    assert p == [p[0], p[1], p[2], p[3], p[4]];
    FiveNumber(p[0], p[1], p[2], p[3], p[4]);
    DigitChar(idx);
    BitsNext(hash, Char(idx));
    hide Digit;
    hide Char;
    hide Five;
  }

  // ---------- cells in degrees ----------

  /** Row and column as the bits spell them: even bits belong to the longitude. */
  function LatBits(bits: seq<bool>): nat {
    if bits == [] then 0 else
      var n := |bits| - 1;
      if n % 2 == 1 then 2 * LatBits(bits[..n]) + Bit(bits[n]) else LatBits(bits[..n])
  }

  function LonBits(bits: seq<bool>): nat {
    if bits == [] then 0 else
      var n := |bits| - 1;
      if n % 2 == 0 then 2 * LonBits(bits[..n]) + Bit(bits[n]) else LonBits(bits[..n])
  }

  /** Height and width of a cell of n bits. */
  function Height(n: nat): real {
    if n == 0 then 180.0 else if n % 2 == 0 then Height(n - 1) / 2.0 else Height(n - 1)
  }

  function Width(n: nat): real {
    if n == 0 then 360.0 else if n % 2 == 1 then Width(n - 1) / 2.0 else Width(n - 1)
  }

  function BoxAt(lat: nat, height: real, lon: nat, width: real): Box {
    Box(-90.0 + lat as real * height, -90.0 + (lat + 1) as real * height, -180.0 + lon as real * width, -180.0 + (lon + 1) as real * width)
  }

  lemma Halved(p: nat, up: bool, w: real)
    ensures (2 * p + Bit(up)) as real * (w / 2.0) == p as real * w + if up then w / 2.0 else 0.0
    ensures (2 * p + Bit(up) + 1) as real * (w / 2.0) == p as real * w + if up then w else w / 2.0
    ensures (p + 1) as real * w == p as real * w + w
  {
    var x := p as real;
    assert (2 * p + Bit(up)) as real == 2.0 * x + Bit(up) as real;
  }

  lemma BisectPlace(lat: nat, height: real, lon: nat, width: real, up: bool)
    ensures Bisect(BoxAt(lat, height, lon, width), true, up) == BoxAt(lat, height, 2 * lon + Bit(up), width / 2.0)
    ensures Bisect(BoxAt(lat, height, lon, width), false, up) == BoxAt(2 * lat + Bit(up), height / 2.0, lon, width)
  {
    Halved(lat, up, height);
    Halved(lon, up, width);
  }

  lemma {:induction false} BitsPlace(bits: seq<bool>)
    ensures Refine(bits) == BoxAt(LatBits(bits), Height(|bits|), LonBits(bits), Width(|bits|))
  {
    if bits == [] {
      assert bits == [];
    } else {
      hide Bisect;
      hide BoxAt;
      var n := |bits| - 1;
      var rest := bits[..n];
      assert |rest| == n;
      BitsPlace(rest);
      BisectPlace(LatBits(rest), Height(n), LonBits(rest), Width(n), bits[n]);
      PlaceNext(bits);
      hide Refine;
      hide LatBits;
      hide LonBits;
      hide Height;
      hide Width;
    }
  }

  lemma {:induction false} PlaceNext(bits: seq<bool>)
    requires bits != []
    ensures var n, rest := |bits| - 1, bits[..|bits| - 1];
      && Refine(bits) == Bisect(Refine(rest), n % 2 == 0, bits[n])
      && LatBits(bits) == (if n % 2 == 1 then 2 * LatBits(rest) + Bit(bits[n]) else LatBits(rest))
      && LonBits(bits) == (if n % 2 == 0 then 2 * LonBits(rest) + Bit(bits[n]) else LonBits(rest))
      && Height(n + 1) == (if n % 2 == 1 then Height(n) / 2.0 else Height(n))
      && Width(n + 1) == (if n % 2 == 0 then Width(n) / 2.0 else Width(n))
  {
    hide Bisect;
  }

  lemma PartsOf(i: nat, j: nat, k: nat, l: nat, m: nat)
    requires i < 2 && j < 2 && k < 2 && l < 2 && m < 2
    ensures Wide(16 * i + 8 * j + 4 * k + 2 * l + m) == 4 * i + 2 * k + m
    ensures Narrow(16 * i + 8 * j + 4 * k + 2 * l + m) == 2 * j + l
  {
    hide Wide;
    hide Narrow;
    PartsLow(j, k, l, m);
    PartsHigh(j, k, l, m);
  }

  lemma PartsLow(j: nat, k: nat, l: nat, m: nat)
    requires j < 2 && k < 2 && l < 2 && m < 2
    ensures Wide(8 * j + 4 * k + 2 * l + m) == 2 * k + m && Narrow(8 * j + 4 * k + 2 * l + m) == 2 * j + l
  {
  }

  lemma PartsHigh(j: nat, k: nat, l: nat, m: nat)
    requires j < 2 && k < 2 && l < 2 && m < 2
    ensures Wide(16 + 8 * j + 4 * k + 2 * l + m) == 4 + 2 * k + m && Narrow(16 + 8 * j + 4 * k + 2 * l + m) == 2 * j + l
  {
  }

  lemma PartsFive(d: nat)
    requires d < 32
    ensures Wide(d) == 4 * Bit(Five(d)[0]) + 2 * Bit(Five(d)[2]) + Bit(Five(d)[4])
    ensures Narrow(d) == 2 * Bit(Five(d)[1]) + Bit(Five(d)[3])
  {
    hide Wide;
    hide Narrow;
    var i, j, k, l, m := d / 16 % 2, d / 8 % 2, d / 4 % 2, d / 2 % 2, d % 2;
    assert d == 16 * i + 8 * j + 4 * k + 2 * l + m;
    PartsOf(i, j, k, l, m);
  }

  lemma {:induction false} SpellNext(bits: seq<bool>, up: bool)
    ensures LatBits(bits + [up]) == if |bits| % 2 == 1 then 2 * LatBits(bits) + Bit(up) else LatBits(bits)
    ensures LonBits(bits + [up]) == if |bits| % 2 == 0 then 2 * LonBits(bits) + Bit(up) else LonBits(bits)
  {
    var more := bits + [up];
    assert |more| == |bits| + 1 && more[..|bits|] == bits && more[|bits|] == up;
  }

  /** The five bits of one character. */
  lemma {:induction false} SpellFive(bits: seq<bool>, f: seq<bool>)
    requires |f| == 5
    ensures var wide, narrow := 4 * Bit(f[0]) + 2 * Bit(f[2]) + Bit(f[4]), 2 * Bit(f[1]) + Bit(f[3]);
      if |bits| % 2 == 0 then LonBits(bits + f) == 8 * LonBits(bits) + wide && LatBits(bits + f) == 4 * LatBits(bits) + narrow
      else LatBits(bits + f) == 8 * LatBits(bits) + wide && LonBits(bits + f) == 4 * LonBits(bits) + narrow
  {
    hide LatBits;
    hide LonBits;
    hide Bit;
    var b := bits + [f[0]] + [f[1]];
    assert |b| % 2 == |bits| % 2 by {
      assert |b| == |bits| + 2;
    }
    OneByOne(bits, f);
    SpellTwo(bits, f[0], f[1]);
    SpellThree(b, f[2], f[3], f[4]);
  }

  lemma OneByOne(bits: seq<bool>, f: seq<bool>)
    requires |f| == 5
    ensures bits + f == bits + [f[0]] + [f[1]] + [f[2]] + [f[3]] + [f[4]]
  {
  }

  lemma {:induction false} SpellThree(bits: seq<bool>, p: bool, q: bool, r: bool)
    ensures var b := bits + [p] + [q] + [r];
      if |bits| % 2 == 0 then LatBits(b) == 2 * LatBits(bits) + Bit(q) && LonBits(b) == 4 * LonBits(bits) + 2 * Bit(p) + Bit(r)
      else LatBits(b) == 4 * LatBits(bits) + 2 * Bit(p) + Bit(r) && LonBits(b) == 2 * LonBits(bits) + Bit(q)
  {
    hide LatBits;
    hide LonBits;
    hide Bit;
    SpellTwo(bits, p, q);
    SpellNext(bits + [p] + [q], r);
    AlternatesFrom(|bits|);
  }

  lemma {:induction false} SpellTwo(bits: seq<bool>, p: bool, q: bool)
    ensures var b := bits + [p] + [q];
      && LatBits(b) == 2 * LatBits(bits) + (if |bits| % 2 == 0 then Bit(q) else Bit(p))
      && LonBits(b) == 2 * LonBits(bits) + (if |bits| % 2 == 0 then Bit(p) else Bit(q))
  {
    hide LatBits;
    hide LonBits;
    hide Bit;
    SpellNext(bits, p);
    SpellNext(bits + [p], q);
    AlternatesFrom(|bits|);
  }

  lemma AlternatesFrom(n: nat)
    ensures (n + 1) % 2 == 1 - n % 2 && (n + 2) % 2 == n % 2 && (n + 3) % 2 == 1 - n % 2 && (n + 4) % 2 == n % 2
  {
  }

  lemma {:induction false} SpellHash(h: string)
    requires Valid(h)
    ensures LatBits(BitsOf(h)) == Lat(h) && LonBits(BitsOf(h)) == Lon(h)
  {
    hide Five;
    hide Digit;
    hide Wide;
    hide Narrow;
    hide LatBits;
    hide LonBits;
    hide Lat;
    hide Lon;
    hide Rows;
    hide Columns;
    if h == [] {
      SpellNone();
    } else {
      var n := |h| - 1;
      var d, rest := Digit(h[n]), h[..n];
      assert BitsOf(h) == BitsOf(rest) + Five(d);
      hide BitsOf;
      SpellHash(rest);
      PartsFive(d);
      FiveLong(d);
      LastStep(h);
      SpellFive(BitsOf(rest), Five(d));
    }
  }

  lemma SpellNone()
    ensures LatBits([]) == 0 && LonBits([]) == 0 && BitsOf([]) == [] && Lat([]) == 0 && Lon([]) == 0
  {
  }

  lemma FiveLong(d: nat)
    ensures |Five(d)| == 5
  {
  }

  /** Where the cell of a hash lies: row and column are positions in a grid of degrees. */
  lemma CellPlace(h: string)
    requires Valid(h)
    ensures Cell(h) == BoxAt(Lat(h), Height(5 * |h|), Lon(h), Width(5 * |h|))
  {
    hide Refine;
    hide Height;
    hide Width;
    BitsPlace(BitsOf(h));
    SpellHash(h);
  }

  lemma SizeNext(n: nat)
    ensures Height(n + 1) == if n % 2 == 1 then Height(n) / 2.0 else Height(n)
    ensures Width(n + 1) == if n % 2 == 0 then Width(n) / 2.0 else Width(n)
  {
  }

  lemma SizeTwice(n: nat)
    ensures Height(n + 2) == Height(n) / 2.0 && Width(n + 2) == Width(n) / 2.0
  {
    hide Height;
    hide Width;
    SizeNext(n);
    SizeNext(n + 1);
  }

  /** One more character. */
  lemma SizeFive(n: nat)
    ensures Height(5 * n + 5) == Height(5 * n) / if n % 2 == 0 then 4.0 else 8.0
    ensures Width(5 * n + 5) == Width(5 * n) / if n % 2 == 0 then 8.0 else 4.0
  {
    hide Height;
    hide Width;
    SizeTwice(5 * n);
    SizeTwice(5 * n + 2);
    SizeNext(5 * n + 4);
  }

  /** So many rows or columns of one size make up the whole. */
  predicate Covers(r: nat, x: real, all: real) { r as real * x == all }

  lemma Scaled(r: nat, k: nat, x: real, all: real, r': nat, x': real)
    requires k > 0 && Covers(r, x, all) && r' == r * k && x' == x / k as real
    ensures Covers(r', x', all)
  {
    assert r' as real == r as real * k as real;
    assert x' * k as real == x;
    Associate(r as real, k as real, x');
  }

  lemma Associate(x: real, y: real, z: real)
    ensures x * y * z == x * (z * y)
  {
  }

  /** The grid covers the world. */
  lemma {:induction false} GridCovers(n: nat)
    ensures Covers(Rows(n), Height(5 * n), 180.0) && Covers(Columns(n), Width(5 * n), 360.0)
  {
    hide Covers;
    hide Height;
    hide Width;
    hide Rows;
    hide Columns;
    if n == 0 {
      OneCell();
    } else {
      var m := n - 1;
      assert 5 * m + 5 == 5 * n;
      GridCovers(m);
      SizeFive(m);
      GridNext(m);
      if m % 2 == 0 {
        Scaled(Rows(m), 4, Height(5 * m), 180.0, Rows(n), Height(5 * n));
        Scaled(Columns(m), 8, Width(5 * m), 360.0, Columns(n), Width(5 * n));
      } else {
        Scaled(Rows(m), 8, Height(5 * m), 180.0, Rows(n), Height(5 * n));
        Scaled(Columns(m), 4, Width(5 * m), 360.0, Columns(n), Width(5 * n));
      }
    }
  }

  lemma GridNext(m: nat)
    ensures Rows(m + 1) == Rows(m) * if m % 2 == 0 then 4 else 8
    ensures Columns(m + 1) == Columns(m) * if m % 2 == 0 then 8 else 4
  {
  }

  lemma OneCell()
    ensures Covers(Rows(0), Height(5 * 0), 180.0) && Covers(Columns(0), Width(5 * 0), 360.0)
  {
  }

  /** Rows of one grid meet, and the last ones meet the poles. */
  lemma RowsMeet(lat: nat, rows: nat, height: real, lon: nat, width: real)
    requires lat < rows && Covers(rows, height, 180.0)
    ensures var b, n := BoxAt(lat, height, lon, width), BoxAt(if lat + 1 < rows then lat + 1 else 0, height, lon, width);
      if lat + 1 < rows then n == b.(latMin := b.latMax, latMax := n.latMax) else b.latMax == 90.0 && n.latMin == -90.0
    ensures var b, s := BoxAt(lat, height, lon, width), BoxAt(if lat > 0 then lat - 1 else rows - 1, height, lon, width);
      if lat > 0 then s == b.(latMax := b.latMin, latMin := s.latMin) else b.latMin == -90.0 && s.latMax == 90.0
  {
  }

  lemma ColumnsMeet(lat: nat, height: real, lon: nat, columns: nat, width: real)
    requires lon < columns && Covers(columns, width, 360.0)
    ensures var b, e := BoxAt(lat, height, lon, width), BoxAt(lat, height, if lon + 1 < columns then lon + 1 else 0, width);
      if lon + 1 < columns then e == b.(lonMin := b.lonMax, lonMax := e.lonMax) else b.lonMax == 180.0 && e.lonMin == -180.0
    ensures var b, w := BoxAt(lat, height, lon, width), BoxAt(lat, height, if lon > 0 then lon - 1 else columns - 1, width);
      if lon > 0 then w == b.(lonMax := b.lonMin, lonMin := w.lonMin) else b.lonMin == -180.0 && w.lonMax == 180.0
  {
  }

  /** Neighbours share an edge, unless the step leaves the map and comes back on the other side. */
  lemma NeighboursTouch(h: string)
    requires Valid(h) && h != []
    ensures var b, n := Cell(h), Cell(Adjacent(h, North));
      if Lat(h) + 1 < Rows(|h|) then n == b.(latMin := b.latMax, latMax := n.latMax) else b.latMax == 90.0 && n.latMin == -90.0
    ensures var b, s := Cell(h), Cell(Adjacent(h, South));
      if Lat(h) > 0 then s == b.(latMax := b.latMin, latMin := s.latMin) else b.latMin == -90.0 && s.latMax == 90.0
    ensures var b, e := Cell(h), Cell(Adjacent(h, East));
      if Lon(h) + 1 < Columns(|h|) then e == b.(lonMin := b.lonMax, lonMax := e.lonMax) else b.lonMax == 180.0 && e.lonMin == -180.0
    ensures var b, w := Cell(h), Cell(Adjacent(h, West));
      if Lon(h) > 0 then w == b.(lonMax := b.lonMin, lonMin := w.lonMin) else b.lonMin == -180.0 && w.lonMax == 180.0
  {
    hide Lat;
    hide Lon;
    hide Rows;
    hide Columns;
    hide Adjacent;
    hide Height;
    hide Width;
    hide Cell;
    hide BoxAt;
    CellPlace(h);
    GridCovers(|h|);
    AdjacentMoves(h, North);
    CellPlace(Adjacent(h, North));
    AdjacentMoves(h, South);
    CellPlace(Adjacent(h, South));
    AdjacentMoves(h, East);
    CellPlace(Adjacent(h, East));
    AdjacentMoves(h, West);
    CellPlace(Adjacent(h, West));
    var height, width := Height(5 * |h|), Width(5 * |h|);
    RowsMeet(Lat(h), Rows(|h|), height, Lon(h), width);
    ColumnsMeet(Lat(h), height, Lon(h), Columns(|h|), width);
  }

  lemma {:induction false} SizesPositive(n: nat)
    ensures Height(n) > 0.0 && Width(n) > 0.0
  {
    if n > 0 {
      SizesPositive(n - 1);
      SizeNext(n - 1);
      hide Height;
      hide Width;
    }
  }

  /** x belongs to cell i of n cells of one size, which begin at low; the outer cells are open to the outside. */
  predicate Inside(x: real, low: real, n: nat, size: real, i: nat) {
    && (x >= low + i as real * size || i == 0)
    && (x < low + (i + 1) as real * size || i + 1 == n)
  }

  lemma Ordered(x: real, low: real, n: nat, size: real, i: nat, k: nat)
    requires size > 0.0 && i < n && k < n && Inside(x, low, n, size, i) && Inside(x, low, n, size, k)
    ensures i <= k
  {
    if k < i {
      Times(k + 1, i, size);
    }
  }

  lemma Times(i: nat, k: nat, size: real)
    requires size > 0.0 && i <= k
    ensures i as real * size <= k as real * size
  {
    var d := k as real - i as real;
    assert d * size >= 0.0;
    assert k as real * size == i as real * size + d * size;
  }

  /** An edge of the grid is the edge of the world exactly for the first and the last line. */
  lemma Edges(i: nat, n: nat, size: real, all: real)
    requires size > 0.0 && Covers(n, size, all) && i < n
    ensures i as real * size == 0.0 <==> i == 0
    ensures (i + 1) as real * size == all <==> i + 1 == n
  {
    if i > 0 {
      Times(1, i, size);
      assert 1 as real * size == size;
    }
    if i + 1 < n {
      Times(i + 2, n, size);
      assert (i + 2) as real * size == (i + 1) as real * size + size;
    }
  }

  lemma OwnsInside(h: string, lat: real, lon: real)
    requires Valid(h) && Owns(Cell(h), lat, lon)
    ensures Lat(h) < Rows(|h|) && Lon(h) < Columns(|h|)
    ensures Inside(lat, -90.0, Rows(|h|), Height(5 * |h|), Lat(h)) && Inside(lon, -180.0, Columns(|h|), Width(5 * |h|), Lon(h))
  {
    hide Lat;
    hide Lon;
    hide Rows;
    hide Columns;
    hide Height;
    hide Width;
    hide Cell;
    hide Covers;
    CellPlace(h);
    CellInGrid(h);
    GridCovers(|h|);
    SizesPositive(5 * |h|);
    Edges(Lat(h), Rows(|h|), Height(5 * |h|), 180.0);
    Edges(Lon(h), Columns(|h|), Width(5 * |h|), 360.0);
  }

  /** The hash that encode finds is the only one of its length to whose cell the point belongs. */
  lemma OwnerUnique(g: string, h: string, lat: real, lon: real)
    requires Valid(g) && Valid(h) && |g| == |h| && Owns(Cell(g), lat, lon) && Owns(Cell(h), lat, lon)
    ensures g == h
  {
    hide Inside;
    OwnsInside(g, lat, lon);
    OwnsInside(h, lat, lon);
    SizesPositive(5 * |g|);
    hide *;
    Ordered(lat, -90.0, Rows(|g|), Height(5 * |g|), Lat(g), Lat(h));
    Ordered(lat, -90.0, Rows(|g|), Height(5 * |g|), Lat(h), Lat(g));
    Ordered(lon, -180.0, Columns(|g|), Width(5 * |g|), Lon(g), Lon(h));
    Ordered(lon, -180.0, Columns(|g|), Width(5 * |g|), Lon(h), Lon(g));
    CellInjective(g, h);
  }
}
