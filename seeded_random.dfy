/** lib/seededRandom.ts: the linear congruential generator behind the daily
    puzzle, and the string hash that turns a YYYY-MM-DD date into its seed.

    The JavaScript code works on doubles. For a state of magnitude below 2^32
    every intermediate value stays below 2^53, so the arithmetic is exact and is
    written here on integers; `next()`'s fraction state/2^32 is an exact `real`. */
module Random {

  const Multiplier: int := 1664525
  const Increment: int := 1013904223
  const Modulus: int := 0x1_0000_0000

  /** JavaScript's `%`: truncating, so the remainder has the dividend's sign. */
  function JsRem(a: int, m: int): (r: int)
    requires m > 0
    ensures a >= 0 ==> 0 <= r < m
    ensures a < 0 ==> -m < r <= 0
  {
    if a >= 0 then a % m else -((-a) % m)
  }

  /** The recurrence state := (state * 1664525 + 1013904223) % 2^32. */
  function LcgStep(state: int): (r: int)
    ensures state >= 0 ==> 0 <= r < Modulus
    ensures -Modulus < r < Modulus
  {
    JsRem(state * Multiplier + Increment, Modulus)
  }

  /** next()'s result for the state it has just produced: state / 2^32. */
  function Fraction(state: int): real {
    state as real / Modulus as real
  }

  /** nextInt(max) for the state that next() has just produced: the integer
      quotient (state * max) div 2^32 (see FloorIsQuotient). */
  function ScaledDraw(state: int, max: int): int {
    (state * max) / Modulus
  }

  /** floor(next() * max), computed on reals, is the integer quotient. */
  lemma FloorIsQuotient(state: int, max: int)
    ensures (Fraction(state) * max as real).Floor == ScaledDraw(state, max)
  {
    var n := state * max;
    var q, rem := n / Modulus, n % Modulus;
    assert n == q * Modulus + rem;
    assert Fraction(state) * max as real == n as real / Modulus as real;
    assert n as real / Modulus as real == q as real + rem as real / Modulus as real;
    assert 0.0 <= rem as real / Modulus as real < 1.0;
  }

  /** For a state in [0, 2^32) and max > 0 the draw lies in [0, max). */
  lemma ScaledDrawInRange(state: int, max: int)
    requires 0 <= state < Modulus && max > 0
    ensures 0 <= ScaledDraw(state, max) < max
  {
    var n := state * max;
    var q := n / Modulus;
    assert n < max * Modulus;
    assert q * Modulus <= n;
  }

  /** nextInt results of successive calls with the given bounds, from `state`. */
  function Draws(state: int, maxes: seq<int>): (r: seq<int>)
    ensures |r| == |maxes|
    decreases maxes
  {
    if maxes == [] then []
    else [ScaledDraw(LcgStep(state), maxes[0])] + Draws(LcgStep(state), maxes[1..])
  }

  /** The state after `count` steps. */
  function StateAfter(state: int, count: nat): (r: int)
    ensures 0 <= state < Modulus ==> 0 <= r < Modulus
    decreases count
  {
    if count == 0 then state else StateAfter(LcgStep(state), count - 1)
  }

  /** For a non-negative seed every draw with a positive bound is in range. */
  lemma {:induction false} DrawsInRange(state: int, maxes: seq<int>)
    requires 0 <= state < Modulus
    ensures forall i :: 0 <= i < |maxes| && maxes[i] > 0 ==>
              0 <= Draws(state, maxes)[i] < maxes[i]
    decreases maxes
  {
    if maxes != [] {
      DrawsInRange(LcgStep(state), maxes[1..]);
      var r := Draws(state, maxes);
      forall i | 0 <= i < |maxes| && maxes[i] > 0
        ensures 0 <= r[i] < maxes[i]
      {
        if i == 0 {
          ScaledDrawInRange(LcgStep(state), maxes[0]);
        } else {
          assert r[i] == Draws(LcgStep(state), maxes[1..])[i - 1];
        }
      }
    }
  }

  class SeededRandom {
    var seed: int

    /** The range in which the double arithmetic of the source is exact. */
    predicate Valid()
      reads this
    {
      -Modulus < seed < Modulus
    }

    constructor (seed: int)
      requires -Modulus < seed < Modulus
      ensures Valid() && this.seed == seed
    {
      this.seed := seed;
    }

    /** Advances the state and returns it as a fraction of 2^32. */
    method Next() returns (r: real)
      requires Valid()
      modifies this
      ensures Valid()
      ensures seed == LcgStep(old(seed))
      ensures r == Fraction(seed)
      ensures old(seed) >= 0 ==> 0.0 <= r < 1.0
    {
      seed := JsRem(seed * Multiplier + Increment, Modulus);
      r := seed as real / Modulus as real;
    }

    /** floor(next() * max). */
    method NextInt(max: int) returns (r: int)
      requires Valid()
      modifies this
      ensures Valid()
      ensures seed == LcgStep(old(seed))
      ensures r == ScaledDraw(seed, max)
      ensures old(seed) >= 0 && max > 0 ==> 0 <= r < max
    {
      var f := Next();
      r := (f * max as real).Floor;
      FloorIsQuotient(seed, max);
      if old(seed) >= 0 && max > 0 {
        ScaledDrawInRange(seed, max);
      }
    }

    method SetSeed(s: int)
      requires -Modulus < s < Modulus
      modifies this
      ensures Valid() && seed == s
    {
      seed := s;
    }
  }

  /** Calls nextInt once per bound, in order. */
  method DrawAll(g: SeededRandom, maxes: seq<int>) returns (out: seq<int>)
    requires g.Valid()
    modifies g
    ensures g.Valid()
    ensures out == Draws(old(g.seed), maxes)
    ensures g.seed == StateAfter(old(g.seed), |maxes|)
  {
    out := [];
    var i := 0;
    ghost var s0 := g.seed;
    while i < |maxes|
      invariant 0 <= i <= |maxes|
      invariant g.Valid()
      invariant Draws(s0, maxes) == out + Draws(g.seed, maxes[i..])
      invariant StateAfter(s0, |maxes|) == StateAfter(g.seed, |maxes| - i)
    {
      var r := g.NextInt(maxes[i]);
      assert maxes[i..][1..] == maxes[i + 1..];
      out := out + [r];
      i := i + 1;
    }
  }

  /** Two generators built from the same seed give the same sequence of draws. */
  method SameSeedSameDraws(seed: int, maxes: seq<int>) returns (a: seq<int>, b: seq<int>)
    requires -Modulus < seed < Modulus
    ensures a == b
    ensures |a| == |maxes|
    ensures 0 <= seed ==> forall i :: 0 <= i < |maxes| && maxes[i] > 0 ==> 0 <= a[i] < maxes[i]
  {
    var g1 := new SeededRandom(seed);
    var g2 := new SeededRandom(seed);
    a := DrawAll(g1, maxes);
    b := DrawAll(g2, maxes);
    if 0 <= seed {
      DrawsInRange(seed, maxes);
    }
  }

  /** After setSeed(s) a generator draws exactly what a fresh SeededRandom(s) draws. */
  method ReseedMatchesFresh(g: SeededRandom, s: int, maxes: seq<int>) returns (a: seq<int>, b: seq<int>)
    requires g.Valid() && -Modulus < s < Modulus
    modifies g
    ensures a == b == Draws(s, maxes)
  {
    g.SetSeed(s);
    a := DrawAll(g, maxes);
    var h := new SeededRandom(s);
    b := DrawAll(h, maxes);
  }

  // ---------------------------------------------------------------------
  // getDailyChallengeSeed

  const TwoTo31: int := 0x8000_0000

  /** ToInt32: the signed 32-bit integer congruent to v modulo 2^32. */
  function ToInt32(v: int): (r: int)
    ensures -TwoTo31 <= r < TwoTo31
  {
    (v + TwoTo31) % Modulus - TwoTo31
  }

  /** One iteration of the loop: hash = ((hash << 5) - hash) + char, then
      hash & hash. `<<` wraps hash * 32 to 32 bits before the subtraction. */
  function HashStep(hash: int, c: char): int {
    ToInt32(ToInt32(hash * 32) - hash + c as int)
  }

  /** The hash after folding every character of `s`, starting from 0. */
  function StringHash(s: string): (h: int)
    ensures -TwoTo31 <= h < TwoTo31
  {
    if s == [] then 0 else HashStep(StringHash(s[..|s| - 1]), s[|s| - 1])
  }

  /** The polynomial hash sum c_i * 31^(n-1-i), without wrap-around. */
  function PolyHash(s: string): int {
    if s == [] then 0 else 31 * PolyHash(s[..|s| - 1]) + s[|s| - 1] as int
  }

  lemma ToInt32Congruent(v: int, k: int)
    ensures ToInt32(v + k * Modulus) == ToInt32(v)
  {
    var a := v + TwoTo31;
    assert (a + k * Modulus) % Modulus == a % Modulus by {
      var q, r := a / Modulus, a % Modulus;
      assert a + k * Modulus == (q + k) * Modulus + r;
    }
  }

  lemma ToInt32Difference(v: int)
    ensures exists k :: ToInt32(v) == v + k * Modulus
  {
    var a := v + TwoTo31;
    assert ToInt32(v) == v + (-(a / Modulus)) * Modulus;
  }

  /** The shift-and-subtract loop computes the standard polynomial string hash
      (multiplier 31) reduced to a signed 32-bit integer. */
  lemma {:induction false} StringHashIsPolynomial(s: string)
    ensures StringHash(s) == ToInt32(PolyHash(s))
  {
    if s != [] {
      var init, c := s[..|s| - 1], s[|s| - 1];
      StringHashIsPolynomial(init);
      var h, p := StringHash(init), PolyHash(init);
      ToInt32Difference(h * 32);
      var k1 :| ToInt32(h * 32) == h * 32 + k1 * Modulus;
      ToInt32Difference(p);
      var k2 :| h == p + k2 * Modulus;
      calc {
        StringHash(s);
        ToInt32(ToInt32(h * 32) - h + c as int);
        ToInt32(31 * h + c as int + k1 * Modulus);
        { ToInt32Congruent(31 * h + c as int, k1); }
        ToInt32(31 * h + c as int);
        { assert 31 * h + c as int == 31 * p + c as int + (31 * k2) * Modulus; }
        ToInt32(31 * p + c as int + (31 * k2) * Modulus);
        { ToInt32Congruent(31 * p + c as int, 31 * k2); }
        ToInt32(PolyHash(s));
      }
    }
  }

  /** getDailyChallengeSeed on the date's YYYY-MM-DD string: the absolute value
      of the 32-bit hash, so a seed in [0, 2^31]. */
  method DailyChallengeSeed(dateString: string) returns (seed: int)
    ensures seed == Abs(StringHash(dateString))
    ensures seed == Abs(ToInt32(PolyHash(dateString)))
    ensures 0 <= seed <= TwoTo31
  {
    var hash := 0;
    var i := 0;
    while i < |dateString|
      invariant 0 <= i <= |dateString|
      invariant hash == StringHash(dateString[..i])
    {
      var c := dateString[i];
      assert dateString[..i + 1][..i] == dateString[..i];
      hash := ToInt32(ToInt32(hash * 32) - hash + c as int);
      i := i + 1;
    }
    assert dateString[..i] == dateString;
    seed := if hash < 0 then -hash else hash;
    StringHashIsPolynomial(dateString);
  }

  function Abs(v: int): nat {
    if v < 0 then -v else v
  }
}
