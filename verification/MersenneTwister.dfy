/** The generator `MTRand`: an in-place block reload and a cursor, on 64-bit machine words, against
    the infinite recurrence on 32-bit words of section 26.5.3.2 of ISO/IEC 14882:2011 with the
    mt19937 parameters of section 26.5.5. */
module MersenneTwister {

  const N: nat := 624
  const M: nat := 397

  /* ---------- the recurrence ---------- */

  function Mixed(u: bv32, v: bv32): bv32 { (u & 0x8000_0000) | (v & 0x7FFF_FFFF) }

  function Multiple(v: bv32): bv32 { if v & 1 == 1 then 0x9908_B0DF else 0 }

  function Twisted(m: bv32, u: bv32, v: bv32): bv32 { m ^ (Mixed(u, v) >> 1) ^ Multiple(v) }

  /** Term `k` of the sequence that starts with the `N` words `x0`. */
  ghost function Term(x0: seq<bv32>, k: nat): bv32
    requires |x0| == N
  {
    if k < N then x0[k] else Twisted(Term(x0, k - N + M), Term(x0, k - N), Term(x0, k - N + 1))
  }

  function Temper1(x: bv32): bv32 { x ^ (x >> 11) }

  function Temper2(x: bv32): bv32 { x ^ ((x << 7) & 0x9D2C_5680) }

  function Temper3(x: bv32): bv32 { x ^ ((x << 15) & 0xEFC6_0000) }

  function Temper4(x: bv32): bv32 { x ^ (x >> 18) }

  function Tempered(x: bv32): bv32 { Temper4(Temper3(Temper2(Temper1(x)))) }

  function SeedNext(x: bv32, i: bv32): bv32 { 1812433253 * (x ^ (x >> 30)) + i }

  /** Word `k` of the state a 32-bit seed initialises. */
  ghost function SeedWord(seed: bv32, k: nat): bv32
    requires k < N
  {
    if k == 0 then seed
    else SeedNext(SeedWord(seed, k - 1), k as bv32)
  }

  ghost function SeedWords(seed: bv32): (words: seq<bv32>)
    ensures |words| == N
  {
    seq(N, k requires 0 <= k < N => SeedWord(seed, k))
  }

  /* The parameters of section 26.5.5 once more, in arithmetic instead of bit operations. */

  ghost function Halved(y: bv32): bv32 { (y / 2) ^ WhenOdd(y) }

  ghost function WhenOdd(y: bv32): bv32 { if y % 2 == 1 then 0x9908_B0DF else 0 }

  /** The top bit of `u` and the other 31 bits of `v`, halved, with 0x9908B0DF if an odd number was halved. */
  ghost function Combined(m: bv32, u: bv32, v: bv32): bv32 { m ^ Halved(u / 0x8000_0000 * 0x8000_0000 + v % 0x8000_0000) }

  lemma MixedIs(u: bv32, v: bv32)
    ensures Mixed(u, v) == u / 0x8000_0000 * 0x8000_0000 + v % 0x8000_0000
  {
  }

  lemma MultipleIs(u: bv32, v: bv32)
    ensures Multiple(v) == WhenOdd(Mixed(u, v))
  {
  }

  lemma ShiftHalves(y: bv32, odd: bv32)
    requires odd == WhenOdd(y)
    ensures (y >> 1) ^ odd == Halved(y)
  {
  }

  lemma HalvedIs(u: bv32, v: bv32)
    ensures (Mixed(u, v) >> 1) ^ Multiple(v) == Halved(Mixed(u, v))
  {
    MultipleIs(u, v);
    ShiftHalves(Mixed(u, v), Multiple(v));
  }

  lemma XorAssociates(a: bv32, b: bv32, c: bv32)
    ensures a ^ b ^ c == a ^ (b ^ c)
  {
  }

  lemma TwistedIs(m: bv32, u: bv32, v: bv32)
    ensures Twisted(m, u, v) == Combined(m, u, v)
  {
    calc {
      Twisted(m, u, v);
      m ^ (Mixed(u, v) >> 1) ^ Multiple(v);
      { XorAssociates(m, Mixed(u, v) >> 1, Multiple(v)); }
      m ^ ((Mixed(u, v) >> 1) ^ Multiple(v));
      { HalvedIs(u, v); }
      m ^ Halved(Mixed(u, v));
      { MixedIs(u, v); }
      Combined(m, u, v);
    }
  }

  /** From term 624 on, a term is put together from those 227, 624 and 623 places back. */
  lemma TermIs(x0: seq<bv32>, k: nat)
    requires |x0| == 624 && k >= 624
    ensures Term(x0, k) == Combined(Term(x0, k - 227), Term(x0, k - 624), Term(x0, k - 623))
  {
    TwistedIs(Term(x0, k - 227), Term(x0, k - 624), Term(x0, k - 623));
  }

  lemma Temper1Is(x: bv32)
    ensures Temper1(x) == x ^ (x / 2048)
  {
  }

  lemma Temper2Is(x: bv32)
    ensures Temper2(x) == x ^ ((x * 128) & 0x9D2C_5680)
  {
  }

  lemma Temper3Is(x: bv32)
    ensures Temper3(x) == x ^ ((x * 32768) & 0xEFC6_0000)
  {
  }

  lemma Temper4Is(x: bv32)
    ensures Temper4(x) == x ^ (x / 262144)
  {
  }

  /** Tempering is these four steps, from the first to the last. */
  lemma TemperedIs(x: bv32, a: bv32, b: bv32, c: bv32)
    requires a == x ^ (x / 2048) && b == a ^ ((a * 128) & 0x9D2C_5680) && c == b ^ ((b * 32768) & 0xEFC6_0000)
    ensures Tempered(x) == c ^ (c / 262144)
  {
    Temper1Is(x);
    Temper2Is(a);
    Temper3Is(b);
    Temper4Is(c);
  }

  lemma SeedNextIs(x: bv32, i: bv32)
    ensures SeedNext(x, i) == 1812433253 * (x ^ (x / 0x4000_0000)) + i
  {
  }

  /** A published check value: the generator's default seed is 5489, and 3499211612 is its first output.  The
      first output depends on words 0, 1 and 397 of the state. */
  lemma FirstOutputOf5489(x0: seq<bv32>)
    requires |x0| == 624 && x0[0] == 5489 && x0[1] == SeedNext(5489, 1) && x0[397] == 3183906156
    ensures Tempered(Term(x0, 624)) == 3499211612
  {
    assert SeedNext(5489, 1) == 1301868182;
    assert Twisted(3183906156, 5489, 1301868182) == 2601187879;
    assert Tempered(2601187879) == 3499211612;
  }

  /** The sequence may be restarted from any `N` consecutive terms. */
  lemma {:induction false} Rebase(x0: seq<bv32>, first: nat, words: seq<bv32>, k: nat)
    requires |x0| == |words| == N && forall i :: 0 <= i < N ==> words[i] == Term(x0, first + i)
    ensures Term(words, k) == Term(x0, first + k)
  {
    if k >= N {
      Rebase(x0, first, words, k - N + M);
      Rebase(x0, first, words, k - N);
      Rebase(x0, first, words, k - N + 1);
    }
  }

  /* Tempering loses nothing: consecutive outputs determine the state. */

  function Undo1(y: bv32): bv32 { y ^ (y >> 11) ^ (y >> 22) }

  function Undo2(y: bv32): bv32 {
    var a := y ^ ((y << 7) & 0x9D2C_5680);
    var b := y ^ ((a << 7) & 0x9D2C_5680);
    var c := y ^ ((b << 7) & 0x9D2C_5680);
    y ^ ((c << 7) & 0x9D2C_5680)
  }

  function Untempered(y: bv32): bv32 { Undo1(Undo2(Temper3(Temper4(y)))) }

  lemma ShiftBack11(x: bv32)
    ensures var y := x ^ (x >> 11); y ^ (y >> 11) ^ (y >> 22) == x
  {
    var y := x ^ (x >> 11);
    assert y >> 11 == (x >> 11) ^ (x >> 22);
    assert y >> 22 == x >> 22;
  }

  lemma Undo1Works(x: bv32)
    ensures Undo1(Temper1(x)) == x
  {
    ShiftBack11(x);
    assert Temper1(x) == x ^ (x >> 11);
    assert Undo1(x ^ (x >> 11)) == (x ^ (x >> 11)) ^ ((x ^ (x >> 11)) >> 11) ^ ((x ^ (x >> 11)) >> 22);
  }

  lemma Undo2Works(x: bv32)
    ensures Undo2(Temper2(x)) == x
  {
  }

  lemma Temper3Twice(x: bv32)
    ensures Temper3(Temper3(x)) == x
  {
  }

  lemma ShiftBack18(x: bv32)
    ensures (x ^ (x >> 18)) ^ ((x ^ (x >> 18)) >> 18) == x
  {
  }

  lemma Temper4Twice(x: bv32)
    ensures Temper4(Temper4(x)) == x
  {
    ShiftBack18(x);
    assert Temper4(x) == x ^ (x >> 18);
    assert Temper4(x ^ (x >> 18)) == (x ^ (x >> 18)) ^ ((x ^ (x >> 18)) >> 18);
  }

  lemma TemperingIsInvertible(x: bv32)
    ensures Untempered(Tempered(x)) == x
  {
    Temper4Twice(Temper3(Temper2(Temper1(x))));
    Temper3Twice(Temper2(Temper1(x)));
    Undo2Works(Temper1(x));
    Undo1Works(x);
  }

  /* ---------- the code's words: `unsigned long`, 64 bits wide ---------- */

  function HiBit(u: bv64): bv64 { u & 0x8000_0000 }

  function LoBit(u: bv64): bv64 { u & 0x0000_0001 }

  function LoBits(u: bv64): bv64 { u & 0x7FFF_FFFF }

  function MixBits(u: bv64, v: bv64): bv64 { HiBit(u) | LoBits(v) }

  function Magic(u: bv64): bv64 { if LoBit(u) != 0 then 0x9908_B0DF else 0 }

  function Twist(m: bv64, s0: bv64, s1: bv64): bv64 { m ^ (MixBits(s0, s1) >> 1) ^ Magic(s1) }

  lemma MixWidens(u: bv32, v: bv32)
    ensures MixBits(u as bv64, v as bv64) == Mixed(u, v) as bv64
  {
  }

  lemma MagicWidens(v: bv32)
    ensures Magic(v as bv64) == Multiple(v) as bv64
  {
  }

  lemma XorWidens(a: bv32, b: bv32)
    ensures (a as bv64) ^ (b as bv64) == (a ^ b) as bv64
  {
  }

  lemma Shift1Widens(x: bv32)
    ensures (x as bv64) >> 1 == (x >> 1) as bv64
  {
  }

  lemma TwistSumWidens(m: bv32, y: bv32, g: bv32)
    ensures (m as bv64) ^ ((y as bv64) >> 1) ^ (g as bv64) == (m ^ (y >> 1) ^ g) as bv64
  {
    Shift1Widens(y);
    XorWidens(m, y >> 1);
    XorWidens(m ^ (y >> 1), g);
  }

  lemma TwistAsWord(m: bv32, u: bv32, v: bv32)
    ensures Twist(m as bv64, u as bv64, v as bv64) == Twisted(m, u, v) as bv64
  {
    calc {
      Twist(m as bv64, u as bv64, v as bv64);
      (m as bv64) ^ (MixBits(u as bv64, v as bv64) >> 1) ^ Magic(v as bv64);
      { MixWidens(u, v); MagicWidens(v); }
      (m as bv64) ^ ((Mixed(u, v) as bv64) >> 1) ^ (Multiple(v) as bv64);
      { TwistSumWidens(m, Mixed(u, v), Multiple(v)); }
      Twisted(m, u, v) as bv64;
    }
  }

  /** A 32-bit value in an `unsigned long`. */
  function Widen(x: bv32): bv64 { x as bv64 }

  /** On 32-bit values the 64-bit twist is the recurrence's. */
  lemma TwistWidens(m: bv32, u: bv32, v: bv32)
    ensures Twist(Widen(m), Widen(u), Widen(v)) == Widen(Twisted(m, u, v))
  {
    TwistAsWord(m, u, v);
  }

  /* The four lines of tempering in `randInt()`. */

  function TemperWord1(s1: bv64): bv64 { s1 ^ (s1 >> 11) }

  function TemperWord2(s1: bv64): bv64 { s1 ^ ((s1 << 7) & 0x9D2C_5680) }

  function TemperWord3(s1: bv64): bv64 { s1 ^ ((s1 << 15) & 0xEFC6_0000) }

  function TemperWord4(s1: bv64): bv64 { s1 ^ (s1 >> 18) }

  lemma TemperAsWord1(x: bv32)
    ensures TemperWord1(x as bv64) == Temper1(x) as bv64
  {
    assert (x as bv64) >> 11 == (x >> 11) as bv64;
    XorWidens(x, x >> 11);
  }

  lemma TemperAsWord2(x: bv32)
    ensures TemperWord2(x as bv64) == Temper2(x) as bv64
  {
  }

  lemma TemperAsWord3(x: bv32)
    ensures TemperWord3(x as bv64) == Temper3(x) as bv64
  {
  }

  lemma TemperAsWord4(x: bv32)
    ensures TemperWord4(x as bv64) == Temper4(x) as bv64
  {
    assert (x as bv64) >> 18 == (x >> 18) as bv64;
    XorWidens(x, x >> 18);
  }

  lemma TemperWidens1(x: bv32)
    ensures TemperWord1(Widen(x)) == Widen(Temper1(x))
  {
    TemperAsWord1(x);
  }

  lemma TemperWidens2(x: bv32)
    ensures TemperWord2(Widen(x)) == Widen(Temper2(x))
  {
    TemperAsWord2(x);
  }

  lemma TemperWidens3(x: bv32)
    ensures TemperWord3(Widen(x)) == Widen(Temper3(x))
  {
    TemperAsWord3(x);
  }

  lemma TemperWidens4(x: bv32)
    ensures TemperWord4(Widen(x)) == Widen(Temper4(x))
  {
    TemperAsWord4(x);
  }

  /** On 32-bit values the 64-bit tempering is the recurrence's. */
  lemma TemperWidens(x: bv32)
    ensures TemperWord4(TemperWord3(TemperWord2(TemperWord1(Widen(x))))) == Widen(Tempered(x))
  {
    TemperWidens1(x);
    TemperWidens2(Temper1(x));
    TemperWidens3(Temper2(Temper1(x)));
    TemperWidens4(Temper3(Temper2(Temper1(x))));
  }

  /** The step of `initialize`. */
  function SeedNextWord(r: bv64, i: bv64): bv64 { (1812433253 * (r ^ (r >> 30)) + i) & 0xFFFF_FFFF }

  lemma SeedProduct(x: bv32, i: bv32)
    ensures (1812433253 * ((x as bv64) ^ ((x as bv64) >> 30)) + i as bv64) & 0xFFFF_FFFF
            == (1812433253 * (x ^ (x >> 30)) + i) as bv64
  {
  }

  lemma SeedNextAsWord(x: bv32, i: bv32)
    ensures SeedNextWord(x as bv64, i as bv64) == SeedNext(x, i) as bv64
  {
    calc {
      SeedNextWord(x as bv64, i as bv64);
      (1812433253 * ((x as bv64) ^ ((x as bv64) >> 30)) + i as bv64) & 0xFFFF_FFFF;
      { SeedProduct(x, i); }
      (1812433253 * (x ^ (x >> 30)) + i) as bv64;
      SeedNext(x, i) as bv64;
    }
  }

  lemma IndexWidens(i: nat)
    requires i < N
    ensures i as bv64 == Widen(i as bv32)
  {
  }

  /** On 32-bit values the 64-bit seeding step, masked, is the 32-bit one. */
  lemma SeedNextWidens(x: bv32, i: bv32)
    ensures SeedNextWord(Widen(x), Widen(i)) == Widen(SeedNext(x, i))
  {
    SeedNextAsWord(x, i);
  }

  /** The mask `randInt(n)` computes: the shortest run of ones that covers `n`. */
  function Used(n: bv64): bv64 {
    var a := n | (n >> 1);
    var b := a | (a >> 2);
    var c := b | (b >> 4);
    var d := c | (c >> 8);
    d | (d >> 16)
  }

  lemma UsedCovers(n: bv64)
    requires n <= 0xFFFF_FFFF
    ensures n <= Used(n) <= 0xFFFF_FFFF && Used(n) & (Used(n) + 1) == 0
    ensures n != 0 ==> Used(n) >> 1 < n
  {
  }

  lemma FullMaskKeeps(x: bv32)
    ensures Used(0xFFFF_FFFF) == 0xFFFF_FFFF && Widen(x) & 0xFFFF_FFFF == Widen(x) <= 0xFFFF_FFFF
  {
  }

  lemma LowBits(w: bv64)
    ensures w & 0xFFFF_FFFF <= 0xFFFF_FFFF
  {
  }

  function Low(w: bv64): (x: bv32)
    ensures Widen(x) == w & 0xFFFF_FFFF
  {
    LowBits(w);
    (w & 0xFFFF_FFFF) as bv32
  }

  lemma WidenIsLow(x: bv32)
    ensures Low(Widen(x)) == x
  {
  }

  lemma CountFits(left: nat)
    requires left <= N
    ensures left as bv64 == (left as bv10) as bv64 < 1024 && (left as bv10) as nat == left
  {
  }

  /** The saved count, read back as an `int`. */
  method ReadCount(w: bv64, ghost count: nat) returns (left: nat)
    requires count <= N && w == count as bv64
    ensures left == count
  {
    CountFits(count);
    left := (w as bv10) as nat;
  }

  /* ---------- the generator object ---------- */

  /** What the draw for term `k` returns. */
  ghost function Output(base: seq<bv32>, k: nat): bv64
    requires |base| == N
  {
    Widen(Tempered(Term(base, k)))
  }

  lemma OutputFits(base: seq<bv32>, k: nat)
    requires |base| == N
    ensures Output(base, k) <= 0xFFFF_FFFF && Output(base, k) & 0xFFFF_FFFF == Output(base, k)
  {
    FullMaskKeeps(Tempered(Term(base, k)));
  }

  /** Toss the bits of an output that `n` does not use. */
  function Toss(x: bv64, n: bv64): bv64 { x & Used(n) }

  /** Tossing keeps exactly the bits the mask covers. */
  lemma TossSplits(x: bv64, n: bv64)
    ensures Toss(x, n) | (x & !Used(n)) == x
  {
    MaskSplits(x, Used(n));
  }

  /** An output that is small enough already is kept as it is. */
  lemma TossKeeps(x: bv64, n: bv64)
    requires x <= n <= 0xFFFF_FFFF
    ensures Toss(x, n) == x
  {
    UsedCovers(n);
    MaskKeeps(x, Used(n));
  }

  lemma MaskSplits(x: bv64, mask: bv64)
    ensures (x & mask) | (x & !mask) == x
  {
  }

  lemma MaskKeeps(x: bv64, mask: bv64)
    requires x <= mask && mask & (mask + 1) == 0
    ensures x & mask == x
  {
  }

  predicate AtMost(x: bv64, n: bv64) { x <= n }

  ghost function Masked(base: seq<bv32>, k: nat, n: bv64): bv64
    requires |base| == N
  {
    Toss(Output(base, k), n)
  }

  ghost predicate Fits(base: seq<bv32>, k: nat, n: bv64)
    requires |base| == N
  {
    AtMost(Masked(base, k, n), n)
  }

  lemma FullMask(base: seq<bv32>, k: nat)
    requires |base| == N
    ensures Masked(base, k, 0xFFFF_FFFF) == Output(base, k) <= 0xFFFF_FFFF
  {
    OutputFits(base, k);
    assert Used(0xFFFF_FFFF) == 0xFFFF_FFFF;
  }

  /** The first of the terms from `pos` on whose masked output is at most `n` is number `k`. */
  ghost predicate FirstAccepted(base: seq<bv32>, pos: nat, k: nat, n: bv64)
    requires |base| == N
  {
    pos <= k && Fits(base, k, n) && forall i :: pos <= i < k ==> !Fits(base, i, n)
  }

  lemma TwistIsNextTerm(base: seq<bv32>, k: nat)
    requires |base| == N
    ensures Twist(Widen(Term(base, k + M)), Widen(Term(base, k)), Widen(Term(base, k + 1))) == Widen(Term(base, N + k))
  {
    TwistWidens(Term(base, k + M), Term(base, k), Term(base, k + 1));
  }

  /** `twist` on three words of the block. */
  method NextWord(m: bv64, s0: bv64, s1: bv64, ghost base: seq<bv32>, ghost k: nat) returns (w: bv64)
    requires |base| == N
    requires m == Widen(Term(base, k + M)) && s0 == Widen(Term(base, k)) && s1 == Widen(Term(base, k + 1))
    ensures w == Widen(Term(base, N + k))
  {
    TwistIsNextTerm(base, k);
    w := Twist(m, s0, s1);
  }

  /** During a reload: the first `p` words are terms of the next block, the rest still of the old
      block, which starts at term `first`. */
  ghost predicate HalfReloaded(state: seq<bv64>, base: seq<bv32>, first: nat, p: nat) {
    && |state| == |base| == N && p <= N
    && (forall k :: 0 <= k < p ==> state[k] == Widen(Term(base, first + N + k)))
    && (forall k :: p <= k < N ==> state[k] == Widen(Term(base, first + k)))
  }

  lemma ReloadStep(state: seq<bv64>, base: seq<bv32>, first: nat, p: nat, w: bv64)
    requires HalfReloaded(state, base, first, p) && p < N && w == Widen(Term(base, N + first + p))
    ensures HalfReloaded(state[p := w], base, first, p + 1)
  {
  }

  /** `N` consecutive terms, as 64-bit words that are all below 2^32. */
  ghost predicate HoldsTerms(state: seq<bv64>, base: seq<bv32>, first: nat) {
    |state| == |base| == N && forall i :: 0 <= i < N ==> state[i] == Widen(Term(base, first + i))
  }

  /** `SeedNext` on words of the state. */
  method NextSeedWord(r: bv64, i: nat, ghost seed: bv32) returns (w: bv64)
    requires 1 <= i < N && r == Widen(SeedWord(seed, i - 1))
    ensures w == Widen(SeedWord(seed, i))
  {
    IndexWidens(i);
    SeedNextWidens(SeedWord(seed, i - 1), i as bv32);
    w := SeedNextWord(r, i as bv64);
  }

  /** While seeding: the first `p` words are done. */
  ghost predicate HalfSeeded(state: seq<bv64>, words: seq<bv32>, p: nat) {
    |state| == |words| == N && p <= N && forall k :: 0 <= k < p ==> state[k] == Widen(words[k])
  }

  lemma SeedStep(state: seq<bv64>, words: seq<bv32>, p: nat, w: bv64)
    requires HalfSeeded(state, words, p) && p < N && w == Widen(words[p])
    ensures HalfSeeded(state[p := w], words, p + 1)
  {
  }

  /** A block of terms may be read as the start of a sequence of its own. */
  lemma Restart(state: seq<bv64>, base: seq<bv32>, first: nat, words: seq<bv32>)
    requires HoldsTerms(state, base, first)
    requires |words| == N && forall i :: 0 <= i < N ==> words[i] == Term(base, first + i)
    ensures HoldsTerms(state, words, 0)
  {
    forall i | 0 <= i < N ensures state[i] == Widen(Term(words, i)) {
      assert Term(words, i) == words[i];
    }
  }

  class MTRand {
    const state: array<bv64>
    var pNext: nat             // index of the next value to get from state
    var left: nat              // number of values left before reload needed
    ghost var base: seq<bv32>  // the words the sequence starts from
    ghost var first: nat       // the term that state[0] holds

    /** The state holds `N` consecutive terms, so every word is below 2^32. */
    ghost predicate Shaped()
      reads this, state
    {
      HoldsTerms(state[..], base, first)
    }

    /** And the cursor stands where `left` says. */
    ghost predicate Valid()
      reads this, state
    {
      Shaped() && left <= N && pNext == N - left
    }

    /** The term the next draw returns. */
    ghost function Position(): nat
      reads this
    {
      first + pNext
    }

    /** The first draw will return the tempering of term `N` of the sequence the seed starts. */
    constructor (oneSeed: bv64)
      ensures Valid() && fresh(state) && base == SeedWords(Low(oneSeed)) && Position() == N
    {
      state := new bv64[N];
      pNext, left := 0, 0;
      new;
      Seed(oneSeed);
    }

    method Seed(oneSeed: bv64)
      requires state.Length == N
      modifies this, state
      ensures Valid() && base == SeedWords(Low(oneSeed)) && Position() == N
    {
      Initialize(oneSeed);
      Reload();
    }

    method Initialize(seed: bv64)
      requires state.Length == N
      modifies `base, `first, state
      ensures Shaped() && base == SeedWords(Low(seed)) && first == 0
    {
      ghost var words := SeedWords(Low(seed));
      state[0] := seed & 0xFFFF_FFFF;
      for i := 1 to N
        invariant HalfSeeded(state[..], words, i)
      {
        var w := NextSeedWord(state[i - 1], i, Low(seed));
        SeedStep(state[..], words, i, w);
        state[i] := w;
      }
      base, first := words, 0;
    }

    /** Replace the block in place by the next `N` terms. */
    method Reload()
      requires Shaped()
      modifies this, state
      ensures Valid() && left == N && base == old(base) && first == old(first) + N
    {
      var p, i := 0, N - M;
      while i != 0
        invariant 0 <= i && p == N - M - i && base == old(base) && first == old(first)
        invariant HalfReloaded(state[..], base, first, p)
      {
        i := i - 1;
        Renew(p, p + M, p + 1);
        p := p + 1;
      }
      i := M - 1;
      while i != 0
        invariant 0 <= i && p == N - 1 - i && base == old(base) && first == old(first)
        invariant HalfReloaded(state[..], base, first, p)
      {
        i := i - 1;
        Renew(p, p + M - N, p + 1);
        p := p + 1;
      }
      Renew(p, p + M - N, 0);
      first := first + N;
      left, pNext := N, 0;
    }

    /** `*p = twist( p[..], p[0], p[..] )`: the word `M` places on, cyclically, is old or new as the
        recurrence needs it. */
    method Renew(p: nat, m: nat, v: nat)
      requires state.Length == N && HalfReloaded(state[..], base, first, p) && p < N
      requires m == (if p < N - M then p + M else p + M - N) && v == (if p + 1 < N then p + 1 else 0)
      modifies state
      ensures HalfReloaded(state[..], base, first, p + 1)
    {
      var w := NextWord(state[m], state[p], state[v], base, first + p);
      ReloadStep(state[..], base, first, p, w);
      state[p] := w;
    }

    /** One draw returns the tempering of the term the cursor stands for and moves on by one, with
        or without a reload in between. */
    method RandInt() returns (r: bv64)
      requires Valid()
      modifies this, state
      ensures Valid() && base == old(base) && Position() == old(Position()) + 1
      ensures r == Output(base, old(Position()))
    {
      if left == 0 {
        Reload();
      }
      left := left - 1;
      var s1 := state[pNext];
      TemperWidens(Term(base, first + pNext));
      pNext := pNext + 1;
      s1 := TemperWord1(s1);
      s1 := TemperWord2(s1);
      s1 := TemperWord3(s1);
      r := TemperWord4(s1);
    }

    /** Any number of draws, across any number of reloads, returns the outputs in order. */
    method RandInts(n: nat) returns (out: seq<bv64>)
      requires Valid()
      modifies this, state
      ensures Valid() && base == old(base) && Position() == old(Position()) + n
      ensures |out| == n && forall j :: 0 <= j < n ==> out[j] == Output(base, old(Position()) + j)
    {
      out := [];
      for i := 0 to n
        invariant Valid() && base == old(base) && Position() == old(Position()) + i
        invariant |out| == i && forall j :: 0 <= j < i ==> out[j] == Output(base, old(Position()) + j)
      {
        var r := RandInt();
        out := out + [r];
      }
    }

    /** `randInt(n)`: draw until a masked output is at most `n`.  Term `accept` is the first that
        is; how soon one comes is a property of the sequence, not of this code. */
    method RandIntUpTo(n: bv64, ghost accept: nat) returns (r: bv64)
      requires Valid() && FirstAccepted(base, Position(), accept, n)
      modifies this, state
      ensures Valid() && base == old(base) && Position() == accept + 1
      ensures r == Masked(base, accept, n) && r <= n
    {
      ghost var pos, k := Position(), Position();
      var ok;
      r, ok := MaskedInt(n);
      while !ok
        invariant Valid() && base == old(base) && Position() == k + 1 && pos <= k <= accept
        invariant r == Masked(base, k, n) && (ok <==> Fits(base, k, n))
        decreases accept - k
      {
        k := k + 1;
        r, ok := MaskedInt(n);
      }
    }

    method MaskedInt(n: bv64) returns (r: bv64, ok: bool)
      requires Valid()
      modifies this, state
      ensures Valid() && base == old(base) && Position() == old(Position()) + 1
      ensures r == Masked(base, old(Position()), n) && (ok <==> Fits(base, old(Position()), n))
    {
      r := RandInt();
      r := Toss(r, n);
      ok := AtMost(r, n);
    }

    /** The call operator of the subpath builder's generator: over the full range the very first
        output is accepted unchanged. */
    method Draw() returns (r: bv64)
      requires Valid()
      modifies this, state
      ensures Valid() && base == old(base) && Position() == old(Position()) + 1
      ensures r == Output(base, old(Position()))
    {
      FullMask(base, Position());
      r := RandIntUpTo(0xFFFF_FFFF, Position());
    }

    method Save(saveArray: array<bv64>)
      requires Valid() && saveArray.Length > N && saveArray != state
      modifies saveArray
      ensures saveArray[..N] == state[..] && saveArray[N] == left as bv64
    {
      CopyWords(state, saveArray);
      assert state[..] == state[..N];
      saveArray[N] := left as bv64;
    }

    /** Load an array of 32-bit words and a count: the sequence starts afresh from those words,
        with the cursor where the count says. */
    method Load(loadArray: array<bv64>, ghost words: seq<bv32>, ghost count: nat)
      requires state.Length == N && loadArray.Length > N && loadArray != state
      requires HoldsTerms(loadArray[..N], words, 0)
      requires count <= N && loadArray[N] == count as bv64
      modifies this, state
      ensures Valid() && base == words && Position() == N - count
    {
      CopyWords(loadArray, state);
      assert state[..] == state[..N];
      base, first := words, 0;
      left := ReadCount(loadArray[N], count);
      pNext := N - left;
    }

    /** Copy construction and assignment. */
    method CopyFrom(o: MTRand)
      requires o.Valid() && state.Length == N && o.state != state && o != this
      modifies this, state
      ensures Valid() && o.Valid() && base == o.base && Position() == o.Position()
    {
      CopyWords(o.state, state);
      assert state[..] == state[..N] && o.state[..] == o.state[..N];
      base, first := o.base, o.first;
      left := o.left;
      pNext := N - left;
    }
  }

  method CopyWords(src: array<bv64>, dst: array<bv64>)
    requires src.Length >= N && dst.Length >= N && src != dst
    modifies dst
    ensures dst[..N] == src[..N]
  {
    for i := 0 to N
      invariant dst[..i] == src[..i]
    {
      dst[i] := src[i];
    }
  }

  /** Draw number `j` from position `pos`. */
  ghost function Upcoming(base: seq<bv32>, pos: nat, j: nat): bv64
    requires |base| == N
  {
    Output(base, pos + j)
  }

  lemma SameStream(base: seq<bv32>, first: nat, words: seq<bv32>, pos: nat)
    requires |base| == |words| == N && forall i :: 0 <= i < N ==> words[i] == Term(base, first + i)
    ensures forall j: nat :: Upcoming(words, pos, j) == Upcoming(base, first + pos, j)
  {
    forall j: nat ensures Upcoming(words, pos, j) == Upcoming(base, first + pos, j) {
      Rebase(base, first, words, pos + j);
    }
  }

  /** What loading rebuilds: the sequence restarted from the saved block. */
  method Transfer(a: MTRand, b: MTRand, buffer: array<bv64>) returns (ghost words: seq<bv32>)
    requires a.Valid() && b.state.Length == N && buffer.Length > N
    requires buffer != a.state && buffer != b.state && (a == b || a.state != b.state)
    modifies buffer, b, b.state
    ensures b.Valid() && b.base == words && b.Position() == old(a.pNext)
    ensures |words| == |old(a.base)| == N && forall i :: 0 <= i < N ==> words[i] == Term(old(a.base), old(a.first) + i)
  {
    ghost var base, first, left := a.base, a.first, a.left;
    words := seq(N, i requires 0 <= i < N => Term(base, first + i));
    a.Save(buffer);
    Restart(buffer[..N], base, first, words);
    b.Load(buffer, words, left);
  }

  /** Saving at any point and loading, into this generator or another, resumes the identical
      stream: every later output is the one the saved generator was about to produce. */
  method SaveAndLoad(a: MTRand, b: MTRand, buffer: array<bv64>)
    requires a.Valid() && b.state.Length == N && buffer.Length > N
    requires buffer != a.state && buffer != b.state && (a == b || a.state != b.state)
    modifies buffer, b, b.state
    ensures b.Valid()
    ensures forall j: nat :: Upcoming(b.base, b.Position(), j) == Upcoming(old(a.base), old(a.Position()), j)
  {
    ghost var base, first, pos := a.base, a.first, a.pNext;
    ghost var words := Transfer(a, b, buffer);
    SameStream(base, first, words, pos);
  }

  /** For every seed and every number of draws: output `j` is the tempering of term `624 + j` of
      the recurrence, and fits 32 bits although the machine words have 64. */
  method SeededOutputs(seed: bv64, n: nat) returns (out: seq<bv64>)
    ensures |out| == n
    ensures forall j :: 0 <= j < n ==>
              out[j] == Widen(Tempered(Term(SeedWords(Low(seed)), N + j))) && out[j] <= 0xFFFF_FFFF
  {
    var g := new MTRand(seed);
    out := g.RandInts(n);
    forall j | 0 <= j < n ensures out[j] <= 0xFFFF_FFFF {
      OutputFits(SeedWords(Low(seed)), N + j);
    }
  }

  /** Tempering loses nothing: `N` consecutive outputs determine the words they come from. */
  lemma OutputsDetermineState(base: seq<bv32>, out: seq<bv64>)
    requires |base| == |out| == N && forall j :: 0 <= j < N ==> out[j] == Output(base, j)
    ensures forall j :: 0 <= j < N ==> base[j] == Untempered(Low(out[j]))
  {
    forall j | 0 <= j < N ensures base[j] == Untempered(Low(out[j])) {
      WidenIsLow(Tempered(base[j]));
      TemperingIsInvertible(base[j]);
    }
  }
}
