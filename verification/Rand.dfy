/** src/core/rand.c: xoshiro256** seeded by splitmix64, on 64-bit words with wrap-around. */
module Rand {

  type word = bv64

  const GOLDEN: word := 0x9E3779B97F4A7C15
  const DEFAULT_SEED: word := 0xDEADBEEFDEADBEEF

  datatype State = State(s0: word, s1: word, s2: word, s3: word)

  const ZERO := State(0, 0, 0, 0)

  // ---- the word operations of a draw ----

  function Xor(x: word, y: word): word { x ^ y }
  function Shl17(x: word): word { x << 17 }
  function Rotl7(x: word): word { (x << 7) | (x >> 57) }
  function Rotl45(x: word): word { (x << 45) | (x >> 19) }
  function Rotr45(x: word): word { (x >> 45) | (x << 19) }

  /** The four words after one draw, as functions of the words before it. */
  function Step(s: State): State {
    var s2 := Xor(s.s2, s.s0);
    var s3 := Xor(s.s3, s.s1);
    State(Xor(s.s0, s3), Xor(s.s1, s2), Xor(s2, Shl17(s.s1)), Rotl45(s3))
  }

  /** The ** scrambler. */
  function Scramble(x: word): word { Mul9(Rotl7(Mul5(x))) }

  /** The word a draw returns. */
  function Output(s: State): word { Scramble(s.s1) }

  /** Inverse of x => x ^ (x << 17): four shifts by 17 empty a word. */
  function Unshift17(a: word): word {
    Xor(Xor(a, Shl17(a)), Shl17(Shl17(Xor(a, Shl17(a)))))
  }

  /** One draw undone. */
  function Unstep(s: State): State {
    var s3 := Rotr45(s.s3);
    var s0 := Xor(s.s0, s3);
    var s1 := Unshift17(Xor(s.s1, s.s2));
    State(s0, s1, Xor(Xor(s.s1, s1), s0), Xor(s3, s1))
  }

  // inverses of 5 and 9 modulo 2^64
  function Unmul5(x: word): word { x * 0xCCCCCCCCCCCCCCCD }
  function Unmul9(x: word): word { x * 0x8E38E38E38E38E39 }
  function Mul5(x: word): word { x * 5 }
  function Mul9(x: word): word { x * 9 }
  function Rotr7(x: word): word { (x >> 7) | (x << 57) }

  /** The scrambler undone. */
  function Unscramble(r: word): word { Unmul5(Rotr7(Unmul9(r))) }

  // ---- their algebra ----

  lemma XorAssocTerms(x: word, y: word, z: word)
    ensures Xor(x ^ y, z) == Xor(x, y ^ z)
  {
  }

  lemma XorAssoc(x: word, y: word, z: word)
    ensures Xor(Xor(x, y), z) == Xor(x, Xor(y, z))
  {
    assert Xor(x, y) == x ^ y && Xor(y, z) == y ^ z;
    hide Xor;
    XorAssocTerms(x, y, z);
  }

  lemma XorUnit(x: word, y: word)
    ensures Xor(x, x) == 0 && Xor(x, 0) == x && Xor(0, x) == x && Xor(x, y) == Xor(y, x)
  {
  }

  lemma XorCancels(x: word, y: word)
    ensures Xor(Xor(x, y), y) == x && Xor(x, Xor(x, y)) == y && Xor(Xor(x, y), x) == y
  {
    hide Xor;
    XorUnit(x, y);
    XorUnit(y, x);
    XorAssoc(x, y, y);
    XorAssoc(x, x, y);
    XorUnit(Xor(x, y), x);
  }

  lemma ShlLinear(x: word, y: word)
    ensures Shl17(Xor(x, y)) == Xor(Shl17(x), Shl17(y))
  {
  }

  lemma ShlEmpties(x: word)
    ensures Shl17(Shl17(Shl17(Shl17(x)))) == 0
  {
  }

  lemma Rotations(x: word)
    ensures Rotr45(Rotl45(x)) == x && Rotl45(Rotr45(x)) == x
  {
  }

  /** (1 + L)(1 + L^2) undoes 1 + L, since L^4 = 0. */
  lemma UnshiftUndoes(x: word)
    ensures Unshift17(Xor(x, Shl17(x))) == x
    ensures Xor(Unshift17(x), Shl17(Unshift17(x))) == x
  {
    hide Xor, Shl17;
    var l, ll := Shl17(x), Shl17(Shl17(x));
    var a := Xor(x, l);
    ShlLinear(x, l);
    // (1 + L) a is x ^ LLx
    XorAssoc(a, l, ll);
    XorCancels(x, l);
    var b := Xor(x, ll);
    assert Xor(a, Shl17(a)) == b;
    // (1 + L^2) b is x
    ShlLinear(x, ll);
    ShlLinear(l, Shl17(ll));
    ShlEmpties(x);
    XorUnit(ll, 0);
    XorUnit(Shl17(l), 0);
    assert Shl17(Shl17(b)) == ll;
    XorCancels(x, ll);
    // the other order: (1 + L) distributes over a ^ LLa
    var c := Shl17(Shl17(a));
    ShlLinear(a, c);
    ShlLinear(l, ll);
    Swap(a, c, Shl17(a), Shl17(c));
    ShlLinear(a, Shl17(a));
    ShlLinear(Shl17(a), c);
    assert Xor(c, Shl17(c)) == Shl17(Shl17(b));
  }

  lemma Swap(a: word, b: word, c: word, d: word)
    ensures Xor(Xor(a, b), Xor(c, d)) == Xor(Xor(a, c), Xor(b, d))
  {
    hide Xor;
    XorAssoc(a, b, Xor(c, d));
    XorAssoc(b, c, d);
    XorUnit(b, c);
    XorAssoc(c, b, d);
    XorAssoc(a, c, Xor(b, d));
  }

  lemma UnstepStep(s: State)
    ensures Unstep(Step(s)) == s
  {
    hide Xor, Shl17, Rotl45, Rotr45, Unshift17;
    var s2, s3, t := Xor(s.s2, s.s0), Xor(s.s3, s.s1), Shl17(s.s1);
    Rotations(s3);
    XorCancels(s.s0, s3);
    XorAssoc(s.s1, s2, Xor(s2, t));
    XorCancels(s2, t);
    UnshiftUndoes(s.s1);
    XorCancels(s.s1, s2);
    XorCancels(s.s2, s.s0);
    XorCancels(s.s3, s.s1);
  }

  lemma StepUnstep(s: State)
    ensures Step(Unstep(s)) == s
  {
    hide Xor, Shl17, Rotl45, Rotr45, Unshift17;
    var a := Xor(s.s1, s.s2);
    var s3, s1 := Rotr45(s.s3), Unshift17(a);
    var s0 := Xor(s.s0, s3);
    var q2 := Xor(s.s1, s1);
    Rotations(s.s3);
    UnshiftUndoes(a);
    XorCancels(q2, s0);
    XorCancels(s3, s1);
    XorCancels(s.s0, s3);
    XorUnit(s1, q2);
    XorCancels(s.s1, s1);
    XorAssoc(s.s1, s1, Shl17(s1));
    XorCancels(s.s1, s.s2);
  }

  lemma ScrambleTerms(x: word)
    ensures Unmul5(x * 5) == x && Unmul9(x * 9) == x && Rotr7((x << 7) | (x >> 57)) == x
  {
  }

  lemma ScrambleStages(x: word)
    ensures Unmul5(Mul5(x)) == x && Unmul9(Mul9(x)) == x && Rotr7(Rotl7(x)) == x
  {
    assert Mul5(x) == x * 5 && Mul9(x) == x * 9 && Rotl7(x) == (x << 7) | (x >> 57);
    hide *;
    ScrambleTerms(x);
  }

  /** The output scrambler is injective: a draw reveals exactly the second state word. */
  lemma ScrambleInvertible(x: word)
    ensures Unscramble(Scramble(x)) == x
  {
    hide Mul5, Mul9, Rotl7, Unmul5, Unmul9, Rotr7;
    ScrambleStages(x);
    ScrambleStages(Mul5(x));
    ScrambleStages(Rotl7(Mul5(x)));
  }

  // ---- splitmix64's finaliser ----

  function Xorshr30(z: word): word { z ^ (z >> 30) }
  function Xorshr27(z: word): word { z ^ (z >> 27) }
  function Xorshr31(z: word): word { z ^ (z >> 31) }
  function Mul1(z: word): word { z * 0xBF58476D1CE4E5B9 }
  function Mul2(z: word): word { z * 0x94D049BB133111EB }

  function Finalise(z: word): word {
    Xorshr31(Mul2(Xorshr27(Mul1(Xorshr30(z)))))
  }

  function Unshr30(y: word): word { y ^ (y >> 30) ^ (y >> 60) }
  function Unshr27(y: word): word { y ^ (y >> 27) ^ (y >> 54) }
  function Unshr31(y: word): word { y ^ (y >> 31) ^ (y >> 62) }
  // the multipliers' inverses modulo 2^64
  function Unmul1(z: word): word { z * 0x96DE1B173F119089 }
  function Unmul2(z: word): word { z * 0x319642B2D24D8EC3 }

  function Unfinalise(z: word): word {
    Unshr30(Unmul1(Unshr27(Unmul2(Unshr31(z)))))
  }

  // Each stage, first on one closed bit-vector term.

  lemma Terms30(z: word)
    ensures Unshr30(z ^ (z >> 30)) == z && Xorshr30(z ^ (z >> 30) ^ (z >> 60)) == z
  {
  }

  lemma Terms27(z: word)
    ensures Unshr27(z ^ (z >> 27)) == z && Xorshr27(z ^ (z >> 27) ^ (z >> 54)) == z
  {
  }

  lemma Terms31(z: word)
    ensures Unshr31(z ^ (z >> 31)) == z && Xorshr31(z ^ (z >> 31) ^ (z >> 62)) == z
  {
  }

  lemma TermsMul(z: word)
    ensures Unmul1(z * 0xBF58476D1CE4E5B9) == z && Mul1(z * 0x96DE1B173F119089) == z
    ensures Unmul2(z * 0x94D049BB133111EB) == z && Mul2(z * 0x319642B2D24D8EC3) == z
  {
  }

  lemma ShiftStages(z: word)
    ensures Unshr30(Xorshr30(z)) == z && Xorshr30(Unshr30(z)) == z
    ensures Unshr27(Xorshr27(z)) == z && Xorshr27(Unshr27(z)) == z
    ensures Unshr31(Xorshr31(z)) == z && Xorshr31(Unshr31(z)) == z
  {
    assert Xorshr30(z) == z ^ (z >> 30) && Unshr30(z) == z ^ (z >> 30) ^ (z >> 60);
    assert Xorshr27(z) == z ^ (z >> 27) && Unshr27(z) == z ^ (z >> 27) ^ (z >> 54);
    assert Xorshr31(z) == z ^ (z >> 31) && Unshr31(z) == z ^ (z >> 31) ^ (z >> 62);
    hide *;
    Terms30(z);
    Terms27(z);
    Terms31(z);
  }

  lemma MulStages(z: word)
    ensures Unmul1(Mul1(z)) == z && Mul1(Unmul1(z)) == z
    ensures Unmul2(Mul2(z)) == z && Mul2(Unmul2(z)) == z
  {
    assert Mul1(z) == z * 0xBF58476D1CE4E5B9 && Unmul1(z) == z * 0x96DE1B173F119089;
    assert Mul2(z) == z * 0x94D049BB133111EB && Unmul2(z) == z * 0x319642B2D24D8EC3;
    hide *;
    TermsMul(z);
  }

  /** The finaliser is a bijection on words, and fixes 0. */
  lemma FinaliseIsBijection(z: word)
    ensures Unfinalise(Finalise(z)) == z && Finalise(Unfinalise(z)) == z
  {
    hide Xorshr30, Xorshr27, Xorshr31, Unshr30, Unshr27, Unshr31, Mul1, Mul2, Unmul1, Unmul2;
    var a := Xorshr30(z);
    var b := Xorshr27(Mul1(a));
    ShiftStages(z);
    MulStages(a);
    ShiftStages(Mul1(a));
    MulStages(b);
    ShiftStages(Mul2(b));
    var c := Unshr31(z);
    var d := Unshr27(Unmul2(c));
    MulStages(c);
    ShiftStages(Unmul2(c));
    MulStages(d);
    ShiftStages(Unmul1(d));
  }

  lemma FinaliseZero(z: word)
    ensures Finalise(z) == 0 <==> z == 0
  {
    assert Finalise(0) == 0 by {
      assert Xorshr30(0) == 0 && Mul1(0) == 0 && Xorshr27(0) == 0 && Mul2(0) == 0 && Xorshr31(0) == 0;
    }
    hide Finalise, Unfinalise;
    FinaliseIsBijection(z);
    FinaliseIsBijection(0);
  }

  // ---- seeding ----

  function Effective(seed: word): word {
    if seed == 0 then DEFAULT_SEED else seed
  }

  function Advance(sm: word): word { sm + 0x9E3779B97F4A7C15 }

  /** The counter splitmix64 has reached after `i + 1` calls. */
  function Counter(sm: word, i: nat): word {
    if i == 0 then Advance(sm) else Advance(Counter(sm, i - 1))
  }

  function Seeded(seed: word): State {
    var sm := Effective(seed);
    State(Finalise(Counter(sm, 0)), Finalise(Counter(sm, 1)), Finalise(Counter(sm, 2)), Finalise(Counter(sm, 3)))
  }

  function Unadvance(sm: word): word { sm - 0x9E3779B97F4A7C15 }

  lemma AdvanceIsFree(x: word)
    ensures Advance(x) != x && Advance(Advance(x)) != x && Advance(Advance(Advance(x))) != x
    ensures Unadvance(Advance(x)) == x
  {
  }

  /** Four calls in a row give four different words, so at most one of them is zero. */
  lemma SeedWordsDistinct(seed: word)
    ensures var s := Seeded(seed);
            s.s0 != s.s1 && s.s0 != s.s2 && s.s0 != s.s3 && s.s1 != s.s2 && s.s1 != s.s3 && s.s2 != s.s3
  {
    hide Finalise, Unfinalise, Advance;
    var sm := Effective(seed);
    var c0 := Advance(sm);
    var c1 := Advance(c0);
    var c2 := Advance(c1);
    assert Counter(sm, 0) == c0 && Counter(sm, 1) == c1;
    assert Counter(sm, 2) == c2;
    assert Counter(sm, 3) == Advance(c2);
    AdvanceIsFree(c0);
    AdvanceIsFree(c1);
    AdvanceIsFree(c2);
    FinaliseIsBijection(c0);
    FinaliseIsBijection(c1);
    FinaliseIsBijection(c2);
    FinaliseIsBijection(Advance(c2));
  }

  /** Seeding loses nothing except that 0 stands for the default seed. */
  lemma SeedingInjective(a: word, b: word)
    ensures Seeded(a) == Seeded(b) <==>
            a == b || (a == 0 && b == 0xDEADBEEFDEADBEEF) || (a == 0xDEADBEEFDEADBEEF && b == 0)
  {
    hide Finalise, Unfinalise, Advance;
    FinaliseIsBijection(Advance(Effective(a)));
    FinaliseIsBijection(Advance(Effective(b)));
    AdvanceIsFree(Effective(a));
    AdvanceIsFree(Effective(b));
  }

  // ---- the generator over its whole life ----

  /** The state after `n` draws. */
  function After(s: State, n: nat): State
    decreases n
  {
    if n == 0 then s else After(Step(s), n - 1)
  }

  /** The words of `n` draws, in order. */
  function Draws(s: State, n: nat): (ws: seq<word>)
    ensures |ws| == n
    decreases n
  {
    if n == 0 then [] else [Output(s)] + Draws(Step(s), n - 1)
  }

  lemma StepZero(s: State)
    ensures Step(s) == ZERO <==> s == ZERO
  {
    assert Step(ZERO) == ZERO by {
      assert Xor(0, 0) == 0 && Shl17(0) == 0 && Rotl45(0) == 0;
    }
    hide Step, Unstep;
    UnstepStep(s);
    UnstepStep(ZERO);
  }

  /** The first draws from the state 1, 2, 3, 4. */
  lemma KnownDraws()
    ensures Draws(State(1, 2, 3, 4), 4) == [11520, 0, 1509978240, 1215971899390074240]
  {
    var s0, s1 := State(1, 2, 3, 4), State(7, 0, 262146, 211106232532992);
    var s2 := State(211106232532999, 262149, 262149, 402653184);
    var s3 := State(211106635448322, 211106232532999, 211140593188866, 9223547958715220736);
    assert Step(s0) == s1 && Output(s0) == 11520;
    assert Step(s1) == s2 && Output(s1) == 0;
    assert Step(s2) == s3 && Output(s2) == 1509978240;
    assert Output(s3) == 1215971899390074240;
    hide Step, Output;
    assert Draws(s3, 1) == [Output(s3)] + Draws(Step(s3), 0);
    assert Draws(s2, 2) == [Output(s2)] + Draws(s3, 1);
    assert Draws(s1, 3) == [Output(s1)] + Draws(s2, 2);
    assert Draws(s0, 4) == [Output(s0)] + Draws(s1, 3);
  }

  /** The finaliser on the first counter from 0. */
  lemma KnownFinalised()
    ensures Finalise(0x9E3779B97F4A7C15) == 0xE220A8397B1DCDAF
  {
    var z := 0x9E3779B97F4A7C15;
    assert Mul1(Xorshr30(z)) == 0xBF58476D1CE4E5B9 * (0x9E3779B97F4A7C15 ^ (0x9E3779B97F4A7C15 >> 30));
  }

  lemma EffectiveSeed(seed: word)
    ensures seed == 0 ==> Effective(seed) == 0xDEADBEEFDEADBEEF
    ensures seed != 0 ==> Effective(seed) == seed
  {
  }

  /** The four words of a seed are the finalised first, second, third and fourth multiples of the gamma
      above it, in this order. */
  lemma SeedOrder(seed: word)
    ensures var sm := Effective(seed);
            Seeded(seed) == State(Finalise(sm + 0x9E3779B97F4A7C15), Finalise(sm + 0x3C6EF372FE94F82A),
                                  Finalise(sm + 0xDAA66D2C7DDF743F), Finalise(sm + 0x78DDE6E5FD29F054))
  {
    hide Finalise, Advance, Counter, Effective;
    FourCounters(Effective(seed));
  }

  lemma FourCounters(sm: word)
    ensures Counter(sm, 0) == sm + 0x9E3779B97F4A7C15 && Counter(sm, 1) == sm + 0x3C6EF372FE94F82A
    ensures Counter(sm, 2) == sm + 0xDAA66D2C7DDF743F && Counter(sm, 3) == sm + 0x78DDE6E5FD29F054
  {
    Multiples(sm);
    hide Advance;
    assert Counter(sm, 0) == Advance(sm);
    assert Counter(sm, 1) == Advance(Counter(sm, 0));
    assert Counter(sm, 2) == Advance(Counter(sm, 1));
    assert Counter(sm, 3) == Advance(Counter(sm, 2));
  }

  lemma Multiples(sm: word)
    ensures Advance(sm) == sm + 0x9E3779B97F4A7C15
    ensures Advance(Advance(sm)) == sm + 0x3C6EF372FE94F82A
    ensures Advance(Advance(Advance(sm))) == sm + 0xDAA66D2C7DDF743F
    ensures Advance(Advance(Advance(Advance(sm)))) == sm + 0x78DDE6E5FD29F054
  {
  }

  /** No seed ever reaches the all-zero state, the one state the generator cannot leave. */
  lemma {:induction false} NeverStuck(s: State, n: nat)
    requires s != ZERO
    ensures After(s, n) != ZERO
    decreases n
  {
    hide Step;
    if n > 0 {
      StepZero(s);
      NeverStuck(Step(s), n - 1);
    }
  }

  lemma SeedNeverStuck(seed: word, n: nat)
    ensures After(Seeded(seed), n) != ZERO
  {
    hide Seeded, After;
    SeedWordsDistinct(seed);
    NeverStuck(Seeded(seed), n);
  }

  lemma {:induction false} DrawsAppend(s: State, m: nat, n: nat)
    ensures Draws(s, m + n) == Draws(s, m) + Draws(After(s, m), n)
    decreases m
  {
    hide Step, Output;
    if m > 0 {
      DrawsAppend(Step(s), m - 1, n);
    }
  }

  /** The stages by their own names, one operator at a time. */
  lemma XorStages(z: word)
    ensures z ^ (z >> 30) == Xorshr30(z) && z ^ (z >> 27) == Xorshr27(z) && z ^ (z >> 31) == Xorshr31(z)
  {
  }

  lemma MulOne(z: word)
    ensures z * 0xBF58476D1CE4E5B9 == Mul1(z)
  {
  }

  lemma MulTwo(z: word)
    ensures z * 0x94D049BB133111EB == Mul2(z)
  {
  }

  method SplitMix64(st: word) returns (z: word, st': word)
    ensures st' == Advance(st) && z == Finalise(st')
  {
    hide Mul1, Mul2, Xorshr27, Xorshr30, Xorshr31;
    st' := st + GOLDEN;
    z := st';
    XorStages(z);
    z := z ^ (z >> 30);
    MulOne(z);
    z := z * 0xBF58476D1CE4E5B9;
    XorStages(z);
    z := z ^ (z >> 27);
    MulTwo(z);
    z := z * 0x94D049BB133111EB;
    XorStages(z);
    z := z ^ (z >> 31);
  }

  class Xosh {
    var s: array<word>

    ghost predicate Valid()
      reads this
    {
      s.Length == 4
    }

    ghost function Value(): State
      requires Valid()
      reads this, s
    {
      State(s[0], s[1], s[2], s[3])
    }

    constructor ()
      ensures Valid() && fresh(s)
    {
      s := new word[4](_ => 0);
    }

    method Seed(seed: word)
      requires Valid()
      modifies s
      ensures Value() == Seeded(seed)
    {
      hide Finalise, Advance;
      var sm := if seed != 0 then seed else DEFAULT_SEED;
      for i := 0 to 4
        invariant i == 0 ==> sm == Effective(seed)
        invariant i > 0 ==> sm == Counter(Effective(seed), i - 1)
        invariant forall k :: 0 <= k < i ==> s[k] == Finalise(Counter(Effective(seed), k))
      {
        var z;
        z, sm := SplitMix64(sm);
        s[i] := z;
      }
    }

    /** One draw, the words updated in place in the order the code updates them. */
    method Next() returns (r: word)
      requires Valid()
      modifies s
      ensures Value() == Step(old(Value())) && r == Output(old(Value()))
    {
      hide Xor, Shl17, Rotl45, Scramble;
      r := Scramble(s[1]);
      var t := Shl17(s[1]);
      s[2] := Xor(s[2], s[0]);
      s[3] := Xor(s[3], s[1]);
      s[1] := Xor(s[1], s[2]);
      s[0] := Xor(s[0], s[3]);
      s[2] := Xor(s[2], t);
      s[3] := Rotl45(s[3]);
    }
  }
}
