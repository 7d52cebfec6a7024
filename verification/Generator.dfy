/**
 The corruption engine's random generator (`src/corrupt.rs:43-81`): from every seed, 2^64 different
 numbers, and then the same again.
 */
module Generator {
  import opened BitFields

  const GOLDEN: bv64 := 0x9E37_79B9_7F4A_7C15
  const PERIOD := 0x1_0000_0000_0000_0000

  // ---------- From a state to a number ----------

  // The operations have names, which the proofs below reason about without opening them up.
  function Shift30(z: bv64): bv64 {
    z ^ (z >> 30)
  }

  function Shift27(z: bv64): bv64 {
    z ^ (z >> 27)
  }

  function Shift31(z: bv64): bv64 {
    z ^ (z >> 31)
  }

  function Plus(a: bv64, b: bv64): bv64 {
    a + b
  }

  function Minus(a: bv64, b: bv64): bv64 {
    a - b
  }

  function Times(a: bv64, b: bv64): bv64 {
    a * b
  }

  /** The state is scrambled into the number that is drawn. */
  function Scramble(state: bv64): bv64 {
    Shift31(Times(Shift27(Times(Shift30(state), 0xBF58_476D_1CE4_E5B9)), 0x94D0_49BB_1331_11EB))
  }

  function Unshift30(z: bv64): bv64 {
    z ^ (z >> 30) ^ (z >> 60)
  }

  function Unshift27(z: bv64): bv64 {
    z ^ (z >> 27) ^ (z >> 54)
  }

  function Unshift31(z: bv64): bv64 {
    z ^ (z >> 31) ^ (z >> 62)
  }

  function Unscramble(z: bv64): bv64 {
    Unshift30(Times(Unshift27(Times(Unshift31(z), 0x3196_42B2_D24D_8EC3)), 0x96DE_1B17_3F11_9089))
  }

  lemma Unshifts(z: bv64)
    ensures Unshift30(Shift30(z)) == z == Shift30(Unshift30(z))
    ensures Unshift27(Shift27(z)) == z == Shift27(Unshift27(z))
    ensures Unshift31(Shift31(z)) == z == Shift31(Unshift31(z))
  {
    assert Unshift30(z ^ (z >> 30)) == z && Shift30(z ^ (z >> 30) ^ (z >> 60)) == z;
    assert Unshift27(z ^ (z >> 27)) == z && Shift27(z ^ (z >> 27) ^ (z >> 54)) == z;
    assert Unshift31(z ^ (z >> 31)) == z && Shift31(z ^ (z >> 31) ^ (z >> 62)) == z;
  }

  /** The multipliers are odd, so that multiplying by their inverses undoes them. */
  lemma FirstInverse(z: bv64)
    ensures Times(z * 0xBF58_476D_1CE4_E5B9, 0x96DE_1B17_3F11_9089) == z
  {
  }

  lemma FirstInverseBack(z: bv64)
    ensures Times(z * 0x96DE_1B17_3F11_9089, 0xBF58_476D_1CE4_E5B9) == z
  {
  }

  lemma SecondInverse(z: bv64)
    ensures Times(z * 0x94D0_49BB_1331_11EB, 0x3196_42B2_D24D_8EC3) == z
  {
  }

  lemma SecondInverseBack(z: bv64)
    ensures Times(z * 0x3196_42B2_D24D_8EC3, 0x94D0_49BB_1331_11EB) == z
  {
  }

  lemma GoldenInverse(z: bv64)
    ensures Times(z * 0x9E37_79B9_7F4A_7C15, 0xF1DE_83E1_9937_733D) == z
  {
  }

  lemma UntimesFirst(z: bv64)
    ensures Times(Times(z, 0xBF58_476D_1CE4_E5B9), 0x96DE_1B17_3F11_9089) == z
    ensures Times(Times(z, 0x96DE_1B17_3F11_9089), 0xBF58_476D_1CE4_E5B9) == z
  {
    FirstInverse(z);
    FirstInverseBack(z);
  }

  lemma UntimesSecond(z: bv64)
    ensures Times(Times(z, 0x94D0_49BB_1331_11EB), 0x3196_42B2_D24D_8EC3) == z
    ensures Times(Times(z, 0x3196_42B2_D24D_8EC3), 0x94D0_49BB_1331_11EB) == z
  {
    SecondInverse(z);
    SecondInverseBack(z);
  }

  lemma UntimesGolden(z: bv64)
    ensures Times(Times(z, 0x9E37_79B9_7F4A_7C15), 0xF1DE_83E1_9937_733D) == z
  {
    GoldenInverse(z);
  }

  /** Scrambling loses nothing: every number is drawn in exactly one state. */
  lemma ScrambleIsOneToOne(z: bv64)
    ensures Unscramble(Scramble(z)) == z == Scramble(Unscramble(z))
  {
    var a := Shift30(z);
    Unshifts(z);
    UntimesFirst(a);
    Unshifts(Times(a, 0xBF58_476D_1CE4_E5B9));
    var b := Shift27(Times(a, 0xBF58_476D_1CE4_E5B9));
    UntimesSecond(b);
    Unshifts(Times(b, 0x94D0_49BB_1331_11EB));
    var c := Unshift31(z);
    UntimesSecond(c);
    Unshifts(Times(c, 0x3196_42B2_D24D_8EC3));
    var d := Unshift27(Times(c, 0x3196_42B2_D24D_8EC3));
    UntimesFirst(d);
    Unshifts(Times(d, 0x96DE_1B17_3F11_9089));
  }

  // ---------- The states ----------

  /** `Rng::new`. */
  function Seeded(seed: bv64): bv64 {
    seed ^ 0x9E37_79B9_7F4A_7C15
  }

  /** The state once so many numbers have been drawn, one addition for each. */
  function StateAfter(seed: bv64, drawn: nat): bv64 {
    if drawn == 0 then Seeded(seed) else Plus(StateAfter(seed, drawn - 1), GOLDEN)
  }

  /** The number drawn after `drawn` others. */
  function Draw(seed: bv64, drawn: nat): bv64 {
    Scramble(StateAfter(seed, drawn + 1))
  }

  /** The one seed whose first state is the given one. */
  function SeedOf(state: bv64): bv64 {
    Seeded(Minus(state, GOLDEN))
  }

  lemma InverseSums(a: bv64)
    ensures Seeded(a ^ 0x9E37_79B9_7F4A_7C15) == a
    ensures Minus(a + 0x9E37_79B9_7F4A_7C15, 0x9E37_79B9_7F4A_7C15) == a
    ensures Plus(a - 0x9E37_79B9_7F4A_7C15, 0x9E37_79B9_7F4A_7C15) == a
  {
  }

  lemma SeedLaws(a: bv64)
    ensures Seeded(Seeded(a)) == a && Minus(Plus(a, GOLDEN), GOLDEN) == a == Plus(Minus(a, GOLDEN), GOLDEN)
  {
    InverseSums(a);
  }

  /** Every number is the first one drawn from exactly one seed. */
  lemma FirstDraw(seed: bv64, z: bv64)
    ensures Draw(seed, 0) == z <==> seed == SeedOf(Unscramble(z))
  {
    assert StateAfter(seed, 1) == Plus(Seeded(seed), GOLDEN);
    SeedLaws(seed);
    SeedLaws(Seeded(seed));
    SeedLaws(Unscramble(z));
    SeedLaws(Minus(Unscramble(z), GOLDEN));
    ScrambleIsOneToOne(StateAfter(seed, 1));
    ScrambleIsOneToOne(z);
  }

  // ---------- Counting modulo 2^64 ----------

  /** A number's residue modulo 2^64. */
  function Residue(n: nat): bv64 {
    if n == 0 then 0 else Plus(Residue(n - 1), 1)
  }

  /** `x` doubled `k` times. */
  function Doubled(k: nat, x: bv64): bv64 {
    if k == 0 then x else Plus(Doubled(k - 1, x), Doubled(k - 1, x))
  }

  lemma Unit(a: bv64)
    ensures Plus(a, 0) == a && Times(1, a) == a && Times(0, a) == 0
  {
  }

  lemma PlusOfSum(a: bv64, b: bv64, c: bv64)
    ensures Plus(a + b, c) == Plus(a, b + c)
  {
  }

  lemma PlusAssociates(a: bv64, b: bv64, c: bv64)
    ensures Plus(Plus(a, b), c) == Plus(a, Plus(b, c))
  {
    PlusOfSum(a, b, c);
  }

  lemma TimesOfProduct(a: bv64, b: bv64, c: bv64)
    ensures Times(a * b, c) == Times(a, b * c)
  {
  }

  lemma TimesAssociates(a: bv64, b: bv64, c: bv64)
    ensures Times(Times(a, b), c) == Times(a, Times(b, c))
  {
    TimesOfProduct(a, b, c);
  }

  lemma {:induction false} ResidueOfSum(m: nat, n: nat)
    ensures Residue(m + n) == Plus(Residue(m), Residue(n))
  {
    if n == 0 {
      Unit(Residue(m));
    } else {
      ResidueOfSum(m, n - 1);
      PlusAssociates(Residue(m), Residue(n - 1), 1);
    }
  }

  lemma {:induction false} ResidueOfShifted(k: nat, n: nat)
    ensures Residue(Power2(k) * n) == Doubled(k, Residue(n))
  {
    if k > 0 {
      ResidueOfShifted(k - 1, n);
      TwiceShifted(k, n);
      ResidueOfSum(Power2(k - 1) * n, Power2(k - 1) * n);
    }
  }

  lemma TwiceShifted(k: nat, n: nat)
    requires k > 0
    ensures Power2(k) * n == Power2(k - 1) * n + Power2(k - 1) * n == Power2(k - 1) * (n + n)
  {
  }

  lemma {:induction false} DoubledTwice(i: nat, j: nat, x: bv64)
    ensures Doubled(i + j, x) == Doubled(i, Doubled(j, x))
  {
    if i > 0 {
      DoubledTwice(i - 1, j, x);
    }
  }

  lemma DoubledOnce(x: bv64)
    ensures Doubled(1, x) == Plus(x, x) == Times(x, 2)
  {
    assert Doubled(0, x) == x;
  }

  lemma Doubled3(x: bv64)
    ensures Doubled(3, x) == Times(x, 8)
  {
    var y := Times(x, 2);
    DoubledOnce(x);
    DoubledTwice(1, 1, x);
    DoubledTwice(1, 2, x);
    DoubledOnce(y);
    DoubledOnce(Times(y, 2));
    TimesAssociates(y, 2, 2);
    TimesAssociates(x, 2, 4);
  }

  lemma Doubled7(x: bv64)
    ensures Doubled(7, x) == Times(x, 0x80)
  {
    var y := Times(x, 2);
    DoubledOnce(x);
    DoubledTwice(3, 1, x);
    DoubledTwice(3, 4, x);
    Doubled3(y);
    Doubled3(Times(y, 8));
    TimesAssociates(y, 8, 8);
    TimesAssociates(x, 2, 0x40);
  }

  lemma Doubled15(x: bv64)
    ensures Doubled(15, x) == Times(x, 0x8000)
  {
    var y := Times(x, 2);
    DoubledOnce(x);
    DoubledTwice(7, 1, x);
    DoubledTwice(7, 8, x);
    Doubled7(y);
    Doubled7(Times(y, 0x80));
    TimesAssociates(y, 0x80, 0x80);
    TimesAssociates(x, 2, 0x4000);
  }

  lemma Doubled31(x: bv64)
    ensures Doubled(31, x) == Times(x, 0x8000_0000)
  {
    var y := Times(x, 2);
    DoubledOnce(x);
    DoubledTwice(15, 1, x);
    DoubledTwice(15, 16, x);
    Doubled15(y);
    Doubled15(Times(y, 0x8000));
    TimesAssociates(y, 0x8000, 0x8000);
    TimesAssociates(x, 2, 0x4000_0000);
  }

  lemma Doubled63(x: bv64)
    ensures Doubled(63, x) == Times(x, 0x8000_0000_0000_0000)
  {
    var y := Times(x, 2);
    DoubledOnce(x);
    DoubledTwice(31, 1, x);
    DoubledTwice(31, 32, x);
    Doubled31(y);
    Doubled31(Times(y, 0x8000_0000));
    TimesAssociates(y, 0x8000_0000, 0x8000_0000);
    TimesAssociates(x, 2, 0x4000_0000_0000_0000);
  }

  lemma ProductsOfTopBit(h: bv64)
    ensures Times(h + h, 0x8000_0000_0000_0000) == 0
    ensures Times((h + h) + 1, 0x8000_0000_0000_0000) == 0x8000_0000_0000_0000
  {
  }

  lemma TopBitOfEven(h: bv64)
    ensures Times(Plus(h, h), 0x8000_0000_0000_0000) == 0
  {
    ProductsOfTopBit(h);
  }

  lemma TopBitOfOdd(h: bv64)
    ensures Times(Plus(Plus(h, h), 1), 0x8000_0000_0000_0000) == 0x8000_0000_0000_0000
  {
    ProductsOfTopBit(h);
  }

  lemma Parity(n: nat)
    ensures Residue(n) == if n % 2 == 0 then Plus(Residue(n / 2), Residue(n / 2))
                          else Plus(Plus(Residue(n / 2), Residue(n / 2)), 1)
  {
    ResidueOfSum(n / 2, n / 2);
    assert n == n / 2 + n / 2 + n % 2;
  }

  /** A residue doubled 63 times is what its lowest bit makes it. */
  lemma LowestBit(k: nat, n: nat)
    requires k + 1 == 64
    ensures Doubled(k, Residue(n)) == 0 <==> n % 2 == 0
  {
    Doubled63(Residue(n));
    TopBit(n);
  }

  lemma TopBit(n: nat)
    ensures Times(Residue(n), 0x8000_0000_0000_0000) == 0 <==> n % 2 == 0
  {
    Parity(n);
    TopBitOfEven(Residue(n / 2));
    TopBitOfOdd(Residue(n / 2));
  }

  /** A residue that vanishes when doubled is that of a multiple of a power of two. */
  lemma {:induction false} LowBitsZero(n: nat, k: nat, j: nat) returns (factor: nat)
    requires k + j == 64 && (k > 0 ==> Doubled(j, Residue(n)) == 0)
    ensures n == Power2(k) * factor
  {
    if k == 0 {
      factor := n;
    } else {
      OneMoreDoubling(n, j);
      var twice := LowBitsZero(n, k - 1, j + 1);
      FactorIsEven(n, k - 1, j, twice);
      factor := HalvedFactor(n, k, twice);
    }
  }

  lemma HalvedFactor(n: nat, k: nat, twice: nat) returns (factor: nat)
    requires k > 0 && n == Power2(k - 1) * twice && twice % 2 == 0
    ensures n == Power2(k) * factor
  {
    factor := twice / 2;
    assert twice == factor + factor;
    TwiceShifted(k, factor);
  }

  lemma FactorIsEven(n: nat, i: nat, j: nat, factor: nat)
    requires i + j + 1 == 64 && n == Power2(i) * factor && Doubled(j, Residue(n)) == 0
    ensures factor % 2 == 0
  {
    ResidueOfShifted(i, factor);
    DoubledTwice(j, i, Residue(factor));
    LowestBit(j + i, factor);
  }

  lemma OneMoreDoubling(n: nat, j: nat)
    requires Doubled(j, Residue(n)) == 0
    ensures Doubled(j + 1, Residue(n)) == 0
  {
    Unit(0);
    assert Doubled(j + 1, Residue(n)) == Plus(0, 0);
  }

  lemma PeriodIsPower()
    ensures Power2(64) == PERIOD
  {
    PowersUsed();
    assert Power2(24) == 0x100_0000;
    assert Power2(32) == 0x1_0000_0000;
    assert Power2(40) == 0x100_0000_0000;
    assert Power2(48) == 0x1_0000_0000_0000;
    assert Power2(56) == 0x100_0000_0000_0000;
  }

  lemma ResidueIsZero(n: nat)
    ensures Residue(n) == 0 <==> n % PERIOD == 0
  {
    PeriodIsPower();
    if Residue(n) == 0 {
      ZeroIsMultiple(n, 64);
    } else if n % PERIOD == 0 {
      MultipleIsZero(n / PERIOD, 63);
    }
  }

  lemma ZeroIsMultiple(n: nat, k: nat)
    requires k == 64 && Residue(n) == 0
    ensures n % PERIOD == 0
  {
    var e := LowBitsZero(n, k, 0);
    PeriodIsPower();
  }

  lemma MultipleIsZero(e: nat, k: nat)
    requires k + 1 == 64
    ensures Residue(PERIOD * e) == 0
  {
    EvenMultipleIsZero(e + e, k);
    TwiceShifted(k + 1, e);
    PeriodIsPower();
  }

  lemma EvenMultipleIsZero(e: nat, k: nat)
    requires k + 1 == 64 && e % 2 == 0
    ensures Residue(Power2(k) * e) == 0
  {
    ResidueOfShifted(k, e);
    LowestBit(k, e);
  }

  // ---------- The period ----------

  lemma OneStepMore(steps: bv64)
    ensures Times(steps + 1, 0x9E37_79B9_7F4A_7C15) == Plus(steps * 0x9E37_79B9_7F4A_7C15, 0x9E37_79B9_7F4A_7C15)
  {
  }

  lemma StepsAdd(x: bv64, steps: bv64)
    ensures Plus(Plus(x, Times(steps, GOLDEN)), GOLDEN) == Plus(x, Times(Plus(steps, 1), GOLDEN))
  {
    OneStepMore(steps);
    PlusAssociates(x, Times(steps, GOLDEN), GOLDEN);
  }

  lemma {:induction false} StateAhead(seed: bv64, i: nat, d: nat)
    ensures StateAfter(seed, i + d) == Plus(StateAfter(seed, i), Times(Residue(d), GOLDEN))
  {
    if d == 0 {
      Unit(GOLDEN);
      Unit(StateAfter(seed, i));
    } else {
      StateAhead(seed, i, d - 1);
      StepsAdd(StateAfter(seed, i), Residue(d - 1));
    }
  }

  lemma MinusSum(x: bv64, y: bv64)
    ensures Minus(x + y, x) == y && Minus(x, x) == 0
  {
  }

  /** Adding nothing is the only way to stay. */
  lemma StepsAhead(x: bv64, steps: bv64)
    ensures Plus(x, Times(steps, GOLDEN)) == x <==> steps == 0
  {
    MinusSum(x, Times(steps, GOLDEN));
    UntimesGolden(steps);
    Unit(0xF1DE_83E1_9937_733D);
    Unit(GOLDEN);
    Unit(x);
  }

  /** From every seed, a number is drawn again exactly after each 2^64 others. */
  lemma DrawsRepeatAfterPeriod(seed: bv64, i: nat, j: nat)
    requires i <= j
    ensures Draw(seed, i) == Draw(seed, j) <==> (j - i) % PERIOD == 0
  {
    var x, y := StateAfter(seed, i + 1), StateAfter(seed, j + 1);
    StateAhead(seed, i + 1, j - i);
    ScrambleIsOneToOne(x);
    ScrambleIsOneToOne(y);
    StepsAhead(x, Residue(j - i));
    ResidueIsZero(j - i);

  }

  /** What a generator with this seed yields, as natural numbers. */
  function Stream(seed: bv64): nat -> nat {
    (k: nat) => Draw(seed, k) as nat
  }

  // Quantified, so that the verifier unfolds the arithmetic only where it is needed.
  ghost predicate Yields(seed: bv64, random: nat -> nat) {
    forall x: bv64 :: x == seed ==> random == Stream(x)
  }

  ghost predicate IsAfter(seed: bv64, state: bv64, drawn: nat) {
    forall k: nat :: k == drawn ==> state == StateAfter(seed, k)
  }

  /** The seed whose first number is 0. */
  lemma ZeroComesFirst(random: nat -> nat)
    requires Yields(0xFFFF_FFFF_FFFF_FFFE, random)
    ensures random(0) == 0
  {
    assert random == Stream(0xFFFF_FFFF_FFFF_FFFE);
    FirstDraw(0xFFFF_FFFF_FFFF_FFFE, 0);
    assert Unscramble(0) == 0 && SeedOf(0) == 0xFFFF_FFFF_FFFF_FFFE;
  }

  class Rng {
    const seed: bv64
    var state: bv64
    ghost const random: nat -> nat
    ghost var drawn: nat

    /** The generator has drawn the first `drawn` of its numbers. */
    ghost predicate Valid()
      reads this
    {
      Yields(seed, random) && IsAfter(seed, state, drawn)
    }

    constructor (seed: bv64)
      ensures Valid() && drawn == 0 && this.seed == seed
    {
      this.seed := seed;
      state := Seeded(seed);
      random, drawn := Stream(seed), 0;
    }

    method NextU64() returns (z: nat)
      requires Valid()
      modifies this
      ensures Valid() && z == random(old(drawn)) && drawn == old(drawn) + 1
    {
      assert state == StateAfter(seed, drawn) && random == Stream(seed);
      state := Plus(state, GOLDEN);
      var x := Times(Shift30(state), 0xBF58_476D_1CE4_E5B9);
      x := Times(Shift27(x), 0x94D0_49BB_1331_11EB);
      z := Shift31(x) as nat;
      drawn := drawn + 1;
    }

    /** The upper half of the number. */
    method NextU32() returns (r: nat)
      requires Valid()
      modifies this
      ensures Valid() && r == random(old(drawn)) / 0x1_0000_0000 && drawn == old(drawn) + 1
    {
      var z := NextU64();
      r := z / 0x1_0000_0000;
    }

    method Below(bound: nat) returns (r: nat)
      requires Valid() && bound > 0
      modifies this
      ensures Valid() && r == random(old(drawn)) % bound && drawn == old(drawn) + 1
    {
      var z := NextU64();
      r := z % bound;
    }
  }
}
