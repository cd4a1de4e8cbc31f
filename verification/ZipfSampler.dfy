/** The Zipf sampler (`genzipf.cc`): Schrage's form of the multiplicative generator minstd_rand0
    (section 26.5.5 of ISO/IEC 14882:2011), and the search of the cumulative distribution. */
module ZipfSampler {
  import opened Arithmetic
  import opened Wrappers

  const A: int := 16807       // multiplier
  const MODULUS: int := 2147483647
  const Q: int := 127773      // MODULUS div A
  const R: int := 2836        // MODULUS mod A
  const INVERSE: int := 1407677000

  /* ---------- the generator ---------- */

  /** A C `int` on the usual targets; the code's `long` values never leave it. */
  predicate FitsInt(v: int) { -0x8000_0000 <= v < 0x8000_0000 }

  /** One step of the textbook recurrence. */
  function Next(x: int): int { A * x % MODULUS }

  /** One step as the code takes it. */
  function Schrage(x: nat): (x': int) {
    var xNew := A * (x % Q) - R * (x / Q);
    if xNew > 0 then xNew else xNew + MODULUS
  }

  lemma SchrageSplit(x: nat)
    ensures A * x == A * (x % Q) - R * (x / Q) + MODULUS * (x / Q)
  {
    assert A * Q + R == MODULUS;
    assert x == Q * (x / Q) + x % Q;
  }

  /** Zero is not reached: multiplication by `A` is undone by multiplication by `INVERSE`. */
  lemma InverseWorks(x: nat)
    requires x < MODULUS
    ensures INVERSE * Next(x) % MODULUS == x
    ensures Next(INVERSE * x % MODULUS) == x
  {
    assert A * INVERSE == 11017 * MODULUS + 1;
    var k := A * x / MODULUS;
    assert A * x == k * MODULUS + Next(x);
    assert INVERSE * Next(x) == (11017 * x - INVERSE * k) * MODULUS + x;
    DivModUnique(INVERSE * Next(x), MODULUS, 11017 * x - INVERSE * k, x);
    var l, y := INVERSE * x / MODULUS, INVERSE * x % MODULUS;
    assert INVERSE * x == l * MODULUS + y;
    assert A * y == (11017 * x - A * l) * MODULUS + x;
    DivModUnique(A * y, MODULUS, 11017 * x - A * l, x);
  }

  /** For every state 1..m-1 the code's step is the recurrence's, stays in 1..m-1, and none of its
      intermediate values leaves a 32-bit `int`. */
  lemma SchrageIsExact(x: nat)
    requires 1 <= x < MODULUS
    ensures Schrage(x) == Next(x) && 1 <= Schrage(x) < MODULUS
    ensures FitsInt(A * (x % Q)) && FitsInt(R * (x / Q)) && FitsInt(A * (x % Q) - R * (x / Q))
  {
    var d := x / Q;
    assert d <= A;
    var xNew := A * (x % Q) - R * d;
    SchrageSplit(x);
    InverseWorks(x);
    assert Next(x) != 0;
    if xNew > 0 {
      DivModUnique(A * x, MODULUS, d, xNew);
    } else {
      assert A * x == (d - 1) * MODULUS + (xNew + MODULUS);
      assert xNew != 0 by { if xNew == 0 { DivModUnique(A * x, MODULUS, d, 0); } }
      DivModUnique(A * x, MODULUS, d - 1, xNew + MODULUS);
    }
  }

  /** The code's step permutes the states 1..m-1. */
  lemma SchragePermutes(x: nat, y: nat)
    requires 1 <= x < MODULUS && 1 <= y < MODULUS
    ensures Schrage(x) == Schrage(y) ==> x == y
    ensures exists w :: 1 <= w < MODULUS && Schrage(w) == y
  {
    SchrageIsExact(x);
    SchrageIsExact(y);
    InverseWorks(x);
    InverseWorks(y);
    var w := INVERSE * y % MODULUS;
    assert w != 0;
    SchrageIsExact(w);
  }

  /** The modulus is a fixed point, and zero leads to it. */
  lemma SchrageStuck()
    ensures Schrage(MODULUS) == MODULUS && Schrage(0) == MODULUS
  {
    DivModUnique(MODULUS, Q, A, R);
  }

  /** The state `k` steps after seeding. */
  ghost function StateAfter(seed: nat, k: nat): (x: nat)
    requires seed <= MODULUS
    ensures x <= MODULUS && (1 <= seed < MODULUS ==> 1 <= x < MODULUS)
  {
    if k == 0 then seed
    else
      var prev := StateAfter(seed, k - 1);
      SchrageStuck();
      if 1 <= prev < MODULUS then (SchrageIsExact(prev); Schrage(prev)) else Schrage(prev)
  }

  ghost function Power(k: nat): int {
    if k == 0 then 1 else A * Power(k - 1)
  }

  /** After `k` steps the state is `A^k * seed mod m`. */
  lemma {:induction false} StateIsPower(seed: nat, k: nat)
    requires 1 <= seed < MODULUS
    ensures StateAfter(seed, k) == Power(k) * seed % MODULUS
  {
    if k == 0 {
      DivModUnique(seed, MODULUS, 0, seed);
    } else {
      StateIsPower(seed, k - 1);
      var prev := StateAfter(seed, k - 1);
      SchrageIsExact(prev);
      assert Power(k) * seed == A * (Power(k - 1) * seed);
      ReduceFactor(A, Power(k - 1) * seed);
    }
  }

  lemma ReduceFactor(a: int, b: int)
    ensures a * (b % MODULUS) % MODULUS == a * b % MODULUS
  {
    var q, r := b / MODULUS, b % MODULUS;
    var s, t := a * r / MODULUS, a * r % MODULUS;
    assert b == q * MODULUS + r;
    assert a * b == a * q * MODULUS + a * r;
    assert a * q * MODULUS + s * MODULUS == (a * q + s) * MODULUS;
    DivModUnique(a * b, MODULUS, a * q + s, t);
  }

  lemma {:induction false} PowerAdds(j: nat, k: nat)
    ensures Power(j + k) == Power(j) * Power(k)
  {
    if j > 0 {
      PowerAdds(j - 1, k);
      assert A * (Power(j - 1) * Power(k)) == (A * Power(j - 1)) * Power(k);
    }
  }

  lemma SquarePower(k: nat, v: int, q: int, w: nat)
    requires Power(k) % MODULUS == v && v * v == q * MODULUS + w && w < MODULUS
    ensures Power(2 * k) % MODULUS == w
  {
    PowerAdds(k, k);
    ReduceFactor(Power(k), Power(k));
    assert v * Power(k) == Power(k) * v;
    ReduceFactor(v, Power(k));
    DivModUnique(v * v, MODULUS, q, w);
  }

  lemma StepPower(k: nat, v: int, q: int, w: nat)
    requires Power(k) % MODULUS == v && A * v == q * MODULUS + w && w < MODULUS
    ensures Power(k + 1) % MODULUS == w
  {
    ReduceFactor(A, Power(k));
    DivModUnique(A * v, MODULUS, q, w);
  }

  /** The check value the comment and the standard give: seeded with 1, the 10000th state is
      1043618065. */
  lemma TenThousandthState()
    ensures StateAfter(1, 10000) == 1043618065
  {
    assert Power(1) == A by { assert Power(0) == 1; }
    SquarePower(1, 16807, 0, 282475249);
    SquarePower(2, 282475249, 37156169, 984943658);
    SquarePower(4, 984943658, 451744538, 1457850878);
    StepPower(8, 1457850878, 11409, 1458777923);
    SquarePower(9, 1458777923, 990942600, 16531729);
    StepPower(18, 16531729, 129, 823378840);
    SquarePower(19, 823378840, 315696333, 1624379149);
    StepPower(38, 1624379149, 12712, 2128236579);
    SquarePower(39, 2128236579, 2109162015, 107554536);
    SquarePower(78, 107554536, 5386759, 1351345223);
    SquarePower(156, 1351345223, 850359868, 1129841133);
    SquarePower(312, 1129841133, 594435719, 73536496);
    StepPower(624, 73536496, 575, 1124791247);
    SquarePower(625, 1124791247, 589133868, 1903958413);
    SquarePower(1250, 1903958413, 1688049007, 566390040);
    SquarePower(2500, 566390040, 149383059, 1069865427);
    SquarePower(5000, 1069865427, 533001512, 1043618065);
    StateIsPower(1, 10000);
  }

  /* ---------- the sampler ---------- */

  /** The uniform value of a state. */
  function Uniform(x: nat): (u: real)
    ensures u * 2147483647.0 == x as real
  {
    x as real / MODULUS as real
  }

  lemma UniformStrictlyInside(x: nat)
    requires 1 <= x < MODULUS
    ensures 0.0 < Uniform(x) < 1.0
  {
  }

  /** The rejection loop of `zipf` ends exactly for states other than 0 and the modulus, and then
      after one draw.  The seed check of the subpath builder admits one seed for which it never
      ends, the modulus itself. */
  lemma RejectionEnds(seed: nat)
    requires seed <= MODULUS
    ensures (exists k :: k > 0 && Uniform(StateAfter(seed, k)) != 0.0 && Uniform(StateAfter(seed, k)) != 1.0)
            <==> 1 <= seed < MODULUS
    ensures 1 <= seed < MODULUS ==> Uniform(StateAfter(seed, 1)) != 0.0 && Uniform(StateAfter(seed, 1)) != 1.0
  {
    if 1 <= seed < MODULUS {
      UniformStrictlyInside(StateAfter(seed, 1));
      assert 1 > 0 && Uniform(StateAfter(seed, 1)) != 0.0 && Uniform(StateAfter(seed, 1)) != 1.0;
    } else {
      forall k: nat | k > 0 ensures Uniform(StateAfter(seed, k)) == 1.0 {
        StuckForever(seed, k);
      }
    }
  }

  lemma {:induction false} StuckForever(seed: nat, k: nat)
    requires seed == 0 || seed == MODULUS
    requires k > 0
    ensures StateAfter(seed, k) == MODULUS
  {
    SchrageStuck();
    if k > 1 {
      StuckForever(seed, k - 1);
    } else {
      assert StateAfter(seed, 0) == seed;
    }
  }

  /** Every draw after this seed is rejected. */
  ghost predicate NeverEnds(seed: nat)
    requires seed <= MODULUS
  {
    forall k: nat :: k > 0 ==> Uniform(StateAfter(seed, k)) == 1.0
  }

  lemma ModulusNeverEnds()
    ensures NeverEnds(MODULUS)
  {
    forall k: nat | k > 0 ensures Uniform(StateAfter(MODULUS, k)) == 1.0 {
      StuckForever(MODULUS, k);
    }
  }

  /** Sum of the first `k` weights. */
  ghost function Prefix(weights: seq<real>, k: nat): real
    requires k <= |weights|
  {
    if k == 0 then 0.0 else Prefix(weights, k - 1) + weights[k - 1]
  }

  /** The sum of the first `k` weights, each scaled by `c`. */
  ghost function Scaled(weights: seq<real>, c: real, k: nat): real
    requires k <= |weights|
  {
    if k == 0 then 0.0 else Scaled(weights, c, k - 1) + c * weights[k - 1]
  }

  ghost function ScaledTotal(weights: seq<real>, c: real): real { Scaled(weights, c, |weights|) }

  lemma {:induction false} ScaledIs(weights: seq<real>, c: real, k: nat)
    requires k <= |weights|
    ensures Scaled(weights, c, k) == c * Prefix(weights, k)
  {
    if k > 0 {
      ScaledIs(weights, c, k - 1);
      Distributes(c, Prefix(weights, k - 1), weights[k - 1]);
    }
  }

  lemma Distributes(c: real, a: real, b: real)
    ensures c * (a + b) == c * a + c * b
  {
  }

  ghost predicate Positive(weights: seq<real>) {
    |weights| > 0 && forall i :: 0 <= i < |weights| ==> weights[i] > 0.0
  }

  lemma {:induction false} PrefixGrows(weights: seq<real>, j: nat, k: nat)
    requires Positive(weights) && j <= k <= |weights|
    ensures Prefix(weights, j) <= Prefix(weights, k) && (j < k ==> Prefix(weights, j) < Prefix(weights, k))
  {
    if j < k { PrefixGrows(weights, j, k - 1); }
  }

  /** `i` is the rank whose share of the unit interval, scaled by `c`, contains `z`. */
  ghost predicate Brackets(weights: seq<real>, c: real, z: real, i: nat) {
    1 <= i <= |weights| && Scaled(weights, c, i - 1) < z <= Scaled(weights, c, i)
  }

  /** There is at most one such rank. */
  lemma BracketUnique(weights: seq<real>, c: real, z: real, i: nat, j: nat)
    requires Positive(weights) && c > 0.0 && Brackets(weights, c, z, i) && Brackets(weights, c, z, j)
    ensures i == j
  {
    if i < j {
      ScaledGrows(weights, c, i, j - 1);
    } else if j < i {
      ScaledGrows(weights, c, j, i - 1);
    }
  }

  lemma {:induction false} ScaledGrows(weights: seq<real>, c: real, j: nat, k: nat)
    requires Positive(weights) && c > 0.0 && j <= k <= |weights|
    ensures Scaled(weights, c, j) <= Scaled(weights, c, k)
  {
    if j < k {
      ScaledGrows(weights, c, j, k - 1);
      PositiveProduct(c, weights[k - 1]);
    }
  }

  lemma PositiveProduct(a: real, b: real)
    requires a > 0.0 && b > 0.0
    ensures a * b > 0.0
  {
  }

  lemma Inverse(t: real, r: real)
    requires t > 0.0 && r == 1.0 / t
    ensures r > 0.0 && r * t == 1.0
  {
    assert r * t == 1.0;
  }

  /** The static variables of `rand_val` and `zipf`. */
  class ZipfSampler {
    var x: nat
    var first: bool
    var c: real

    ghost predicate Valid() reads this { x <= MODULUS && (!first ==> c > 0.0) }

    /** The normalisation constant, once computed, belongs to these weights. */
    ghost predicate NormalisedFor(weights: seq<real>)
      requires Positive(weights)
      reads this
    {
      !first ==> ScaledTotal(weights, c) == 1.0
    }

    constructor ()
      ensures Valid() && x == 0 && first
    {
      x, first, c := 0, true, 0.0;
    }

    /** A positive argument seeds; any other draws. */
    method RandVal(seed: int) returns (z: real)
      requires Valid() && seed <= MODULUS
      modifies `x
      ensures Valid() && x == (if seed > 0 then seed else Schrage(old(x)))
      ensures z == (if seed > 0 then 0.0 else Uniform(x))
      ensures seed <= 0 && 1 <= old(x) < MODULUS ==> x == Next(old(x)) && 1 <= x < MODULUS
    {
      if seed > 0 {
        x := seed;
        return 0.0;
      }
      SchrageStuck();
      if 1 <= x < MODULUS { SchrageIsExact(x); }
      var xDivQ, xModQ := x / Q, x % Q;
      var xNew := A * xModQ - R * xDivQ;
      if xNew > 0 {
        x := xNew;
      } else {
        x := xNew + MODULUS;
      }
      z := x as real / MODULUS as real;
    }

    method InitZipf(seed: int) returns (r: real)
      requires Valid() && seed <= MODULUS
      modifies `x
      ensures Valid() && (r == 0.0 <==> seed > 0) && x == if seed > 0 then seed else old(x)
    {
      if seed <= 0 {
        return -1.0;
      }
      r := RandVal(seed);
    }

    /** One draw.  It takes one step of the generator, and yields the rank that brackets the
        uniform value; the search ends without a value, here `None`, exactly when the scaled weights
        do not reach that far, which cannot happen while the weights are those the
        constant was computed for. */
    method Zipf(weights: seq<real>) returns (value: Option<nat>)
      requires Valid() && 1 <= x < MODULUS && Positive(weights)
      modifies this
      ensures Valid() && x == Next(old(x)) && 1 <= x < MODULUS && !first
      ensures old(first) ==> NormalisedFor(weights)
      ensures !old(first) ==> c == old(c)
      ensures value.Some? <==> Uniform(x) <= ScaledTotal(weights, c)
      ensures value.Some? ==> Brackets(weights, c, Uniform(x), value.value)
      ensures old(NormalisedFor(weights)) ==> NormalisedFor(weights) && value.Some?
    {
      if first {
        Normalise(weights);
      }
      var z := RandVal(0);
      UniformStrictlyInside(x);
      // `while ((z == 0) || (z == 1))` is left here: a state in 1..m-1 gives neither
      assert z != 0.0 && z != 1.0;
      value := Search(weights, c, z);
    }

    method Normalise(weights: seq<real>)
      requires first && Positive(weights)
      modifies `first, `c
      ensures !first && c > 0.0 && ScaledTotal(weights, c) == 1.0
    {
      c := 0.0;
      for i := 1 to |weights| + 1
        invariant c == Prefix(weights, i - 1)
      {
        c := c + weights[i - 1];
      }
      PrefixGrows(weights, 0, |weights|);
      ghost var total := c;
      c := 1.0 / c;
      Inverse(total, c);
      ScaledIs(weights, c, |weights|);
      first := false;
    }

    /** `k` draws in a row with unchanged weights all yield ranks in range, as the Zipf subpath
        builder needs them. */
    method Ranks(weights: seq<real>, k: nat) returns (ranks: seq<nat>)
      requires Valid() && 1 <= x < MODULUS && Positive(weights) && NormalisedFor(weights)
      modifies this
      ensures |ranks| == k && RanksFrom(weights, c, old(x), ranks)
      ensures Valid() && x == StateAfter(old(x), k)
      ensures NormalisedFor(weights) && (k > 0 ==> ScaledTotal(weights, c) == 1.0)
    {
      ranks := [];
      for i := 0 to k
        invariant Valid() && 1 <= x < MODULUS && NormalisedFor(weights) && x == StateAfter(old(x), i)
        invariant |ranks| == i && (i > 0 ==> !first) && RanksFrom(weights, c, old(x), ranks)
      {
        SchrageIsExact(x);
        var value := Zipf(weights);
        ranks := ranks + [value.value];
      }
    }
  }

  /** Draw number `i` after `seed` yields the rank that brackets its state's uniform value. */
  ghost predicate RanksFrom(weights: seq<real>, c: real, seed: nat, ranks: seq<nat>)
    requires seed <= MODULUS
  {
    forall i :: 0 <= i < |ranks| ==>
      1 <= ranks[i] <= |weights| && Brackets(weights, c, Uniform(StateAfter(seed, i + 1)), ranks[i])
  }

  /** The search loop: the first prefix, scaled, that reaches `z`. */
  method Search(weights: seq<real>, c: real, z: real) returns (value: Option<nat>)
    requires Positive(weights) && c > 0.0 && z > 0.0
    ensures value.Some? <==> z <= ScaledTotal(weights, c)
    ensures value.Some? ==> Brackets(weights, c, z, value.value)
  {
    var sumProb := 0.0;
    var i := 1;
    while i <= |weights|
      invariant 1 <= i <= |weights| + 1
      invariant sumProb == Scaled(weights, c, i - 1) < z
    {
      sumProb := sumProb + c * weights[i - 1];
      if sumProb >= z {
        ScaledGrows(weights, c, i, |weights|);
        return Some(i);
      }
      i := i + 1;
    }
    value := None;
  }
}
