/** The Misra-Gries sketch of include/misragries.h: k counters for the frequent items of a stream. */
module MisraGries {
  import opened Keys
  import Bits

  const MAX: nat := 0xFFFF_FFFF_FFFF_FFFF

  /** A counter; score zero means free, whatever the name. */
  datatype Slot = Slot(score: nat, item: Key) {
    function Incr(): Slot { if score == MAX then this else Slot(score + 1, item) }

    function Decr(): Slot { if score == 0 then this else Slot(score - 1, item) }

    predicate Names(x: Key) { score != 0 && item == x }
  }

  function Decremented(m: seq<Slot>): (d: seq<Slot>)
    ensures |d| == |m|
  {
    seq(|m|, i requires 0 <= i < |m| => m[i].Decr())
  }

  predicate LiveAfter(m: seq<Slot>, i: int) {
    forall j :: 0 <= j < |m| && i < j ==> m[j].score != 0
  }

  /** What one arrival does: count it, or give it a free slot, or charge everybody. */
  ghost predicate Step(m: seq<Slot>, x: Key, m': seq<Slot>, r: nat) {
    if exists i :: 0 <= i < |m| && m[i].Names(x) then
      exists i :: 0 <= i < |m| && m[i].Names(x) && m' == m[i := m[i].Incr()] && r == m'[i].score
    else if exists i :: 0 <= i < |m| && m[i].score == 0 then
      exists i :: 0 <= i < |m| && m[i].score == 0 && LiveAfter(m, i) && m' == m[i := Slot(1, x)] && r == 1
    else
      m' == Decremented(m) && r == 0
  }

  method Add(mg: array<Slot>, item: Key) returns (r: nat)
    modifies mg
    ensures Step(old(mg[..]), item, mg[..], r)
  {
    ghost var m := mg[..];
    var free := mg.Length;
    for i := 0 to mg.Length
      invariant mg[..] == m
      invariant forall j :: 0 <= j < i ==> !m[j].Names(item)
      invariant free == mg.Length || (0 <= free < i && m[free].score == 0)
      invariant free == mg.Length ==> forall j :: 0 <= j < i ==> m[j].score != 0
      invariant forall j :: free < j < i ==> m[j].score != 0
    {
      if mg[i].score == 0 {
        free := i;
      } else if mg[i].item == item {
        assert m[i].Names(item);
        mg[i] := mg[i].Incr();
        assert mg[..] == m[i := m[i].Incr()];
        return mg[i].score;
      }
    }
    if free != mg.Length {
      mg[free] := Slot(1, item);
      assert m[free].score == 0 && mg[..] == m[free := Slot(1, item)];
      return 1;
    }
    for i := 0 to mg.Length
      invariant forall j :: 0 <= j < i ==> mg[j] == m[j].Decr()
      invariant forall j :: i <= j < mg.Length ==> mg[j] == m[j]
    {
      mg[i] := mg[i].Decr();
    }
    assert mg[..] == Decremented(m);
    return 0;
  }

  // ---------- the bound ----------

  function Count(stream: seq<Key>, x: Key): nat {
    if stream == [] then 0 else Count(stream[..|stream| - 1], x) + if stream[|stream| - 1] == x then 1 else 0
  }

  function Sum(m: seq<Slot>): nat {
    if m == [] then 0 else Sum(m[..|m| - 1]) + m[|m| - 1].score
  }

  ghost predicate Distinct(m: seq<Slot>) {
    forall i, j :: 0 <= i < j < |m| && m[i].score != 0 && m[j].score != 0 ==> m[i].item != m[j].item
  }

  /** The estimate for x: its counter, or zero if it has none. */
  function Score(m: seq<Slot>, x: Key): nat {
    if m == [] then 0
    else if m[|m| - 1].Names(x) then m[|m| - 1].score
    else Score(m[..|m| - 1], x)
  }

  /** rounds arrivals charged everybody; every other arrival is still in a counter or was charged away. */
  ghost predicate Accounts(m: seq<Slot>, stream: seq<Key>, rounds: nat) {
    && Distinct(m)
    && Sum(m) + (|m| + 1) * rounds == |stream|
    && forall x :: Score(m, x) <= Count(stream, x) <= Score(m, x) + rounds
  }

  lemma {:induction false} ScoreNone(m: seq<Slot>, x: Key)
    ensures Score(m, x) == 0 <==> forall i :: 0 <= i < |m| ==> !m[i].Names(x)
  {
    if m != [] && !m[|m| - 1].Names(x) {
      ScoreNone(m[..|m| - 1], x);
    }
  }

  lemma {:induction false} ScoreAt(m: seq<Slot>, i: nat, x: Key)
    requires Distinct(m) && i < |m| && m[i].Names(x)
    ensures Score(m, x) == m[i].score
  {
    var n := |m| - 1;
    if i != n {
      assert !m[n].Names(x);
      ScoreAt(m[..n], i, x);
    }
  }

  /** A slot of other items does not matter. */
  lemma {:induction false} ScoreOther(m: seq<Slot>, i: nat, s: Slot, y: Key)
    requires i < |m| && !m[i].Names(y) && !s.Names(y)
    ensures Score(m[i := s], y) == Score(m, y)
  {
    var n := |m| - 1;
    if i == n {
      assert m[i := s][..n] == m[..n];
    } else {
      assert m[i := s][..n] == m[..n][i := s];
      if !m[n].Names(y) {
        ScoreOther(m[..n], i, s, y);
      }
    }
  }

  lemma {:induction false} ScoreDecremented(m: seq<Slot>, y: Key)
    requires forall i :: 0 <= i < |m| ==> m[i].score != 0
    requires Distinct(m)
    ensures Score(Decremented(m), y) == if Score(m, y) > 0 then Score(m, y) - 1 else 0
  {
    if m != [] {
      var n := |m| - 1;
      assert Decremented(m)[..n] == Decremented(m[..n]);
      ScoreDecremented(m[..n], y);
      if m[n].Names(y) {
        ScoreNone(m[..n], y);
      }
    }
  }

  lemma {:induction false} SumUpdate(m: seq<Slot>, i: nat, s: Slot)
    requires i < |m|
    ensures Sum(m[i := s]) == Sum(m) - m[i].score + s.score
  {
    var n := |m| - 1;
    if i == n {
      assert m[i := s][..n] == m[..n];
    } else {
      assert m[i := s][..n] == m[..n][i := s];
      SumUpdate(m[..n], i, s);
    }
  }

  lemma {:induction false} SumDecremented(m: seq<Slot>)
    requires forall i :: 0 <= i < |m| ==> m[i].score != 0
    ensures Sum(m) == Sum(Decremented(m)) + |m|
  {
    if m != [] {
      var n := |m| - 1;
      assert Decremented(m)[..n] == Decremented(m[..n]);
      SumDecremented(m[..n]);
    }
  }

  lemma {:induction false} CountBound(stream: seq<Key>, x: Key)
    ensures Count(stream, x) <= |stream|
  {
    if stream != [] {
      CountBound(stream[..|stream| - 1], x);
    }
  }

  lemma CountNext(stream: seq<Key>, x: Key, y: Key)
    ensures Count(stream + [x], y) == Count(stream, y) + if x == y then 1 else 0
  {
    assert (stream + [x])[..|stream|] == stream;
  }

  lemma CountKeeps(m: seq<Slot>, i: nat, stream: seq<Key>, rounds: nat)
    requires Accounts(m, stream, rounds) && |stream| < MAX && i < |m| && m[i].score != 0
    ensures Accounts(m[i := m[i].Incr()], stream + [m[i].item], rounds)
  {
    var x, s := m[i].item, m[i].Incr();
    var m' := m[i := s];
    ScoreAt(m, i, x);
    ScoreAt(m', i, x);
    CountBound(stream, x);
    SumUpdate(m, i, s);
    forall y ensures Score(m', y) <= Count(stream + [x], y) <= Score(m', y) + rounds {
      CountNext(stream, x, y);
      if y != x {
        ScoreOther(m, i, s, y);
      }
    }
  }

  lemma FreeKeeps(m: seq<Slot>, i: nat, x: Key, stream: seq<Key>, rounds: nat)
    requires Accounts(m, stream, rounds) && i < |m| && m[i].score == 0
    requires forall j :: 0 <= j < |m| ==> !m[j].Names(x)
    ensures Accounts(m[i := Slot(1, x)], stream + [x], rounds)
  {
    var m' := m[i := Slot(1, x)];
    assert Distinct(m') by {
      forall p, q | 0 <= p < q < |m'| && m'[p].score != 0 && m'[q].score != 0 ensures m'[p].item != m'[q].item {
        assert p != i ==> !m[p].Names(x);
        assert q != i ==> !m[q].Names(x);
      }
    }
    ScoreNone(m, x);
    ScoreAt(m', i, x);
    SumUpdate(m, i, Slot(1, x));
    forall y ensures Score(m', y) <= Count(stream + [x], y) <= Score(m', y) + rounds {
      CountNext(stream, x, y);
      if y != x {
        ScoreOther(m, i, Slot(1, x), y);
      }
    }
  }

  lemma ChargeKeeps(m: seq<Slot>, x: Key, stream: seq<Key>, rounds: nat)
    requires Accounts(m, stream, rounds)
    requires forall j :: 0 <= j < |m| ==> m[j].score != 0 && !m[j].Names(x)
    ensures Accounts(Decremented(m), stream + [x], rounds + 1)
  {
    var m' := Decremented(m);
    ScoreNone(m, x);
    SumDecremented(m);
    assert (|m| + 1) * (rounds + 1) == (|m| + 1) * rounds + |m| + 1;
    forall y ensures Score(m', y) <= Count(stream + [x], y) <= Score(m', y) + rounds + 1 {
      CountNext(stream, x, y);
      ScoreDecremented(m, y);
    }
  }

  /** One arrival keeps the accounts. */
  lemma StepKeeps(m: seq<Slot>, x: Key, m': seq<Slot>, r: nat, stream: seq<Key>, rounds: nat) returns (rounds': nat)
    requires Step(m, x, m', r) && Accounts(m, stream, rounds) && |stream| < MAX
    ensures Accounts(m', stream + [x], rounds') && |m'| == |m|
  {
    hide Accounts;
    if exists i :: 0 <= i < |m| && m[i].Names(x) {
      var i :| 0 <= i < |m| && m[i].Names(x) && m' == m[i := m[i].Incr()];
      CountKeeps(m, i, stream, rounds);
      rounds' := rounds;
    } else if exists i :: 0 <= i < |m| && m[i].score == 0 {
      var i :| 0 <= i < |m| && m[i].score == 0 && m' == m[i := Slot(1, x)];
      FreeKeeps(m, i, x, stream, rounds);
      rounds' := rounds;
    } else {
      ChargeKeeps(m, x, stream, rounds);
      rounds' := rounds + 1;
    }
  }

  /** The guarantee: estimates never exceed the true count and miss at most n / (k + 1) of it. */
  ghost predicate Guarantee(m: seq<Slot>, stream: seq<Key>) {
    && Distinct(m)
    && forall x :: Score(m, x) <= Count(stream, x) <= Score(m, x) + |stream| / (|m| + 1)
  }

  lemma AccountsGuarantee(m: seq<Slot>, stream: seq<Key>, rounds: nat)
    requires Accounts(m, stream, rounds)
    ensures Guarantee(m, stream)
  {
    Quotient(Sum(m), |m| + 1, rounds);
  }

  lemma Quotient(a: nat, b: nat, c: nat)
    requires b > 0
    ensures c <= (a + b * c) / b
  {
    Bits.DivMod(a / b + c, a % b, b);
    assert b * (a / b + c) + a % b == a + b * c;
  }

  /** Feeding a whole stream to cleared counters. */
  method AddAll(mg: array<Slot>, stream: seq<Key>)
    requires forall i :: 0 <= i < mg.Length ==> mg[i].score == 0
    requires |stream| <= MAX
    modifies mg
    ensures Guarantee(mg[..], stream)
  {
    ghost var rounds: nat := 0;
    SumCleared(mg[..]);
    forall x ensures Score(mg[..], x) == 0 {
      ScoreNone(mg[..], x);
    }
    for n := 0 to |stream|
      invariant Accounts(mg[..], stream[..n], rounds)
    {
      ghost var m := mg[..];
      var r := Add(mg, stream[n]);
      rounds := StepKeeps(m, stream[n], mg[..], r, stream[..n], rounds);
      assert stream[..n + 1] == stream[..n] + [stream[n]];
    }
    assert stream[..|stream|] == stream;
    AccountsGuarantee(mg[..], stream, rounds);
  }

  lemma {:induction false} SumCleared(m: seq<Slot>)
    requires forall i :: 0 <= i < |m| ==> m[i].score == 0
    ensures Sum(m) == 0
  {
    if m != [] {
      SumCleared(m[..|m| - 1]);
    }
  }
}
