/**
 The markup checksum: Adler-32 over 16-bit code units, four at a time, with the modulus
 delayed to the end of each block (defaults/react-with-addons.js:16, module 124).
 */
module Adler32 {
  import opened Numbers

  const BASE := 65521

  // ----- Section 8.2 of RFC 1950, one unit at a time -----

  function S1(s: seq<unit>): nat {
    if s == [] then 1 else (S1(s[..|s| - 1]) + s[|s| - 1]) % BASE
  }

  function S2(s: seq<unit>): nat {
    if s == [] then 0 else (S2(s[..|s| - 1]) + S1(s)) % BASE
  }

  /** The sums so far, up to multiples of the base. */
  predicate Sums(s: seq<unit>, r: nat, t: nat, n: nat) {
    r <= |s| && t % BASE == S1(s[..r]) && n % BASE == S2(s[..r])
  }

  lemma SumsUnfold(s: seq<unit>, r: nat)
    requires r < |s|
    ensures S1(s[..r + 1]) == (S1(s[..r]) + s[r]) % BASE
    ensures S2(s[..r + 1]) == (S2(s[..r]) + S1(s[..r + 1])) % BASE
  {
    var longer := s[..r + 1];
    assert longer[..r] == s[..r] && longer[r] == s[r];
  }

  /** Reducing the terms of a sum changes nothing modulo the base. */
  lemma AddReduced(a: nat, b: nat)
    ensures (a + b) % BASE == (a % BASE + b) % BASE == (a % BASE + b % BASE) % BASE
  {
    DropMultiples(a / BASE, a % BASE + b);
    DropMultiples(b / BASE, a % BASE + b % BASE);
  }

  lemma DropMultiples(q: nat, x: nat)
    ensures (BASE * q + x) % BASE == x % BASE
  {
    var y := BASE * q + x;
    var k := y / BASE - q - x / BASE;
    assert BASE * k == x % BASE - y % BASE;
    assert k == 0;
  }

  lemma AddUnit(s: seq<unit>, r: nat, t: nat, n: nat)
    requires r < |s| && Sums(s, r, t, n)
    ensures Sums(s, r + 1, t + s[r], n + (t + s[r]))
  {
    hide S1, S2;
    SumsUnfold(s, r);
    AddReduced(t, s[r]);
    AddReduced(n, t + s[r]);
  }

  lemma ReduceSums(s: seq<unit>, r: nat, t: nat, n: nat)
    requires Sums(s, r, t, n)
    ensures Sums(s, r, t % BASE, n % BASE)
  {
  }

  // ----- The sums in closed form -----

  function Total(s: seq<unit>): nat {
    if s == [] then 0 else s[0] + Total(s[1..])
  }

  /** Each unit counts as often as there are units from it to the end. */
  function Weighted(s: seq<unit>): nat {
    if s == [] then 0 else |s| * s[0] + Weighted(s[1..])
  }

  lemma {:induction false} TotalsAppend(s: seq<unit>, c: unit)
    ensures Total(s + [c]) == Total(s) + c
    ensures Weighted(s + [c]) == Weighted(s) + Total(s) + c
  {
    if s == [] {
      assert [c][1..] == [] && s + [c] == [c];
    } else {
      var tail := s[1..];
      assert (s + [c])[0] == s[0] && (s + [c])[1..] == tail + [c];
      TotalsAppend(tail, c);
      assert (|s| + 1) * s[0] == |s| * s[0] + s[0];
    }
  }

  /** One more unit, with the reductions done at once or put off. */
  lemma PutOff(a: nat, b: nat, c: nat)
    ensures (a % BASE + c) % BASE == (a + c) % BASE
    ensures (b % BASE + (a + c) % BASE) % BASE == (b + (a + c)) % BASE
  {
    AddReduced(a, c);
    AddReduced(b, a + c);
  }

  /** With all reductions put off to the end, modulo the greatest prime below 2^16. */
  lemma {:induction false} ClosedForm(s: seq<unit>)
    ensures S1(s) == (1 + Total(s)) % 65521
    ensures S2(s) == (|s| + Weighted(s)) % 65521
  {
    if s != [] {
      var front, last := s[..|s| - 1], s[|s| - 1];
      assert s == front + [last];
      ClosedForm(front);
      TotalsAppend(front, last);
      SumsOfLast(s);
      hide S1, S2, Total, Weighted;
      PutOff(1 + Total(front), |front| + Weighted(front), last);
      assert |s| + Weighted(s) == |front| + Weighted(front) + (1 + Total(front) + last);
    } else {
      NoTotals();
    }
  }

  lemma SumsOfLast(s: seq<unit>)
    requires s != []
    ensures S1(s) == (S1(s[..|s| - 1]) + s[|s| - 1]) % BASE && S2(s) == (S2(s[..|s| - 1]) + S1(s)) % BASE
  {
    var n := |s| - 1;
    SumsUnfold(s, n);
    assert s[..n + 1] == s;
  }

  lemma NoTotals()
    ensures Total([]) == 0 && Weighted([]) == 0 && S1([]) == 1 && S2([]) == 0
  {
  }

  // ----- The loops -----

  /** What the sums can reach `k` units into a block. */
  predicate Bounded(k: nat, t: nat, n: nat) {
    t <= 65520 + k * 65535 && n <= 65520 + k * 268500880
  }

  lemma AddBounded(k: nat, t: nat, n: nat, c: unit)
    requires Bounded(k, t, n) && k < 4096
    ensures Bounded(k + 1, t + c, n + (t + c))
  {
  }

  /** The body of the inner loop: four units at once. */
  method AddFour(s: seq<unit>, ghost start: nat, r: nat, t: nat, n: nat) returns (t': nat, n': nat)
    requires start <= r && r + 4 <= |s| && r + 4 - start <= 4096
    requires Sums(s, r, t, n) && Bounded(r - start, t, n)
    ensures Sums(s, r + 4, t', n') && Bounded(r + 4 - start, t', n') && t <= t' && n <= n'
  {
    hide Sums, Bounded;
    AddBoth(s, start, r, t, n);
    var t1 := t + s[r];
    AddBoth(s, start, r + 1, t1, n + t1);
    var t2 := t1 + s[r + 1];
    AddBoth(s, start, r + 2, t2, n + t1 + t2);
    var t3 := t2 + s[r + 2];
    AddBoth(s, start, r + 3, t3, n + t1 + t2 + t3);
    t' := t3 + s[r + 3];
    n' := n + (t1 + t2 + t3 + t');
  }

  /** Within one block the sums only grow, and they stay exact in a double. */
  method SumBlock(s: seq<unit>, start: nat, limit: nat, t0: nat, n0: nat) returns (t: nat, n: nat)
    requires start <= limit <= |s| && limit - start <= 4096 && (limit - start) % 4 == 0
    requires Sums(s, start, t0, n0) && t0 < BASE && n0 < BASE
    ensures Sums(s, limit, t, n)
    ensures t0 <= t < 0x20_0000_0000_0000 && n0 <= n < 0x20_0000_0000_0000
  {
    hide Sums, Bounded;
    t, n := t0, n0;
    var r := start;
    assert Bounded(0, t, n) by { BoundedAtStart(t, n); }
    while r < limit
      invariant start <= r <= limit && (limit - r) % 4 == 0
      invariant Sums(s, r, t, n) && Bounded(r - start, t, n) && t0 <= t && n0 <= n
      decreases limit - r
    {
      t, n := AddFour(s, start, r, t, n);
      r := r + 4;
    }
    BoundedIsExact(r - start, t, n);
  }

  lemma AddBoth(s: seq<unit>, start: nat, r: nat, t: nat, n: nat)
    requires start <= r < |s| && r - start < 4096 && Sums(s, r, t, n) && Bounded(r - start, t, n)
    ensures Sums(s, r + 1, t + s[r], n + (t + s[r])) && Bounded(r + 1 - start, t + s[r], n + (t + s[r]))
  {
    AddUnit(s, r, t, n);
    AddBounded(r - start, t, n, s[r]);
  }

  lemma BoundedAtStart(t: nat, n: nat)
    requires t < BASE && n < BASE
    ensures Bounded(0, t, n)
  {
  }

  lemma BoundedIsExact(k: nat, t: nat, n: nat)
    requires Bounded(k, t, n) && k <= 4096
    ensures t < 0x20_0000_0000_0000 && n < 0x20_0000_0000_0000
  {
  }

  /** `adler32`; the two halves are put together as a signed 32-bit integer. */
  method Checksum(s: seq<unit>) returns (sum: int)
    ensures sum == ToInt32(S2(s) * 0x1_0000 + S1(s))
    ensures sum == ToInt32((|s| + Weighted(s)) % 65521 * 0x1_0000 + (1 + Total(s)) % 65521)
  {
    hide Sums, Bounded, S1, S2, Total, Weighted;
    var t: nat, n: nat, r := 1, 0, 0;
    var i := |s|;
    var a := i - i % 4;
    assert Sums(s, 0, 1, 0) by { SumsAtStart(s); }
    while r < a
      invariant 0 <= r <= a && (a - r) % 4 == 0
      invariant Sums(s, r, t, n) && t < BASE && n < BASE
      decreases a - r
    {
      var limit := if r + 4096 < a then r + 4096 else a;
      t, n := SumBlock(s, r, limit, t, n);
      ReduceSums(s, limit, t, n);
      t, n, r := t % BASE, n % BASE, limit;
    }
    BoundedAtStart(t, n);
    while r < i
      invariant a <= r <= i && Sums(s, r, t, n) && Bounded(r - a, t, n)
      invariant n < 0x20_0000_0000_0000
    {
      AddBoth(s, a, r, t, n);
      BoundedIsExact(r + 1 - a, t + s[r], n + (t + s[r]));
      t := t + s[r];
      n := n + t;
      r := r + 1;
    }
    ReduceSums(s, r, t, n);
    t, n := t % BASE, n % BASE;
    FinalSums(s, t, n);
    ClosedForm(s);
    sum := ToInt32(n * 0x1_0000 + t);
  }

  lemma SumsAtStart(s: seq<unit>)
    ensures Sums(s, 0, 1, 0)
  {
  }

  lemma FinalSums(s: seq<unit>, t: nat, n: nat)
    requires Sums(s, |s|, t, n) && t < BASE && n < BASE
    ensures t == S1(s) && n == S2(s)
  {
    assert s[..|s|] == s;
  }
}
