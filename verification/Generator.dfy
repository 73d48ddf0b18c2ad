/** Class CRandom: the congruential generator of Random.h, and its full period. */
module Generator {
  import opened Powers

  const MODULUS: nat := 0x1_0000_0000
  const A: nat := 214013
  const C: nat := 2531011

  function Next(x: nat): (y: nat)
    ensures y < MODULUS
  {
    (A * x + C) % MODULUS
  }

  /** The seed after n steps. */
  function Iterate(x: nat, n: nat): nat {
    if n == 0 then x else Next(Iterate(x, n - 1))
  }

  // ---- Divisibility by powers of two, by halving ----

  ghost predicate Halves(k: nat, v: int) {
    k == 0 || (v % 2 == 0 && Halves(k - 1, v / 2))
  }

  lemma {:induction false} HalvesIsDivisible(k: nat, v: int)
    ensures Halves(k, v) <==> v % Pow2(k) == 0
  {
    if k > 0 {
      HalvesIsDivisible(k - 1, v / 2);
      DoubleModulus(v, Pow2(k - 1));
    }
  }

  lemma DoubleModulus(v: int, p: nat)
    requires p > 0
    ensures v % (2 * p) == 0 <==> v % 2 == 0 && v / 2 % p == 0
  {
    if v % (2 * p) == 0 {
      var q := v / (2 * p);
      assert v == 2 * p * q == 2 * (p * q);
      assert v / 2 == p * q;
      MultipleHasNoRest(q, p);
    }
    if v % 2 == 0 && v / 2 % p == 0 {
      var q := v / 2 / p;
      assert v == 2 * (p * q) == q * (2 * p);
      MultipleHasNoRest(q, 2 * p);
    }
  }

  lemma ProductAtLeast(p: int, d: int)
    requires p > 0
    ensures d >= 1 ==> p * d >= p
    ensures d <= -1 ==> p * d <= -p
  {
  }

  lemma QuotientIsUnique(p: int, d: int, e: int, d': int, e': int)
    requires p > 0 && 0 <= e < p && 0 <= e' < p && p * d + e == p * d' + e'
    ensures d == d' && e == e'
  {
    assert p * (d - d') == p * d - p * d';
    ProductAtLeast(p, d - d');
  }

  lemma RestIsUnique(v: int, p: nat, d: int, e: int)
    requires p > 0 && v == p * d + e && 0 <= e < p
    ensures v % p == e && v / p == d
  {
    QuotientIsUnique(p, d, e, v / p, v % p);
  }

  lemma MultipleHasNoRest(q: int, p: nat)
    requires p > 0
    ensures p * q % p == 0 && q * p % p == 0
  {
    RestIsUnique(p * q, p, q, 0);
  }

  /** An odd factor changes nothing. */
  lemma {:induction false} HalvesOddFactor(k: nat, u: int, v: int)
    requires v % 2 == 1
    ensures Halves(k, u * v) <==> Halves(k, u)
  {
    if k > 0 {
      ParityOfProduct(u, v);
      if u % 2 == 0 {
        HalvesOddFactor(k - 1, u / 2, v);
        assert u * v == 2 * (u / 2 * v);
      }
    }
  }

  lemma ParityOfProduct(u: int, v: int)
    requires v % 2 == 1
    ensures u * v % 2 == u % 2
  {
    var w := v / 2;
    assert u * v == 2 * (u * w) + u;
  }

  // ---- The orbit in closed form ----

  ghost function NextTerm(g: nat): nat {
    A * g + 1
  }

  /** 1 + A + ... + A^(n-1) */
  ghost function Geometric(n: nat): nat {
    if n == 0 then 0 else NextTerm(Geometric(n - 1))
  }

  /** The orbit without reduction. */
  ghost function Unreduced(x: nat, n: nat): nat {
    if n == 0 then x else A * Unreduced(x, n - 1) + C
  }

  lemma {:induction false} UnreducedClosed(x: nat, n: nat)
    ensures Unreduced(x, n) == x + Geometric(n) * ((A - 1) * x + C)
  {
    if n > 0 {
      UnreducedClosed(x, n - 1);
      var g, h := Geometric(n - 1), (A - 1) * x + C;
      assert Geometric(n) * h == (A * g + 1) * h == A * (g * h) + h;
    }
  }

  lemma {:induction false} IterateReduces(x: nat, n: nat)
    requires x < MODULUS
    ensures Iterate(x, n) == Unreduced(x, n) % MODULUS
  {
    if n > 0 {
      IterateReduces(x, n - 1);
      var u := Unreduced(x, n - 1);
      ReduceInside(u, u / MODULUS);
    }
  }

  lemma ReduceInside(u: nat, q: nat)
    requires q == u / MODULUS
    ensures (A * (u % MODULUS) + C) % MODULUS == (A * u + C) % MODULUS
  {
    var v := A * (u % MODULUS) + C;
    assert u == MODULUS * q + u % MODULUS;
    assert A * u + C == MODULUS * (A * q) + v;
    SameRest(v, MODULUS, A * q);
  }

  // ---- Powers of two in the geometric sum ----

  lemma SplitOnce(m: nat, g: nat)
    ensures A * ((1 + (A - 1) * m) * g + m) + 1 == (1 + (A - 1) * m) * (A * g + 1) + m
  {
    var p := 1 + (A - 1) * m;
    assert p * (A * g + 1) == A * (p * g) + p;
  }

  lemma {:induction false} GeometricSplits(m: nat, n: nat)
    ensures Geometric(m + n) == (1 + (A - 1) * Geometric(m)) * Geometric(n) + Geometric(m)
  {
    if n > 0 {
      GeometricSplits(m, n - 1);
      assert Geometric(m + n) == A * Geometric(m + n - 1) + 1;
      SplitOnce(Geometric(m), Geometric(n - 1));
    }
  }

  lemma GeometricDoubles(m: nat)
    ensures Geometric(2 * m) == 2 * (Geometric(m) * (1 + (A - 1) / 2 * Geometric(m)))
  {
    GeometricSplits(m, m);
    TwiceOdd(Geometric(m), (A - 1) / 2);
  }

  lemma TwiceOdd(g: int, h: int)
    ensures (1 + 2 * h * g) * g + g == 2 * (g * (1 + h * g))
  {
  }

  lemma ParityFlips(g: nat)
    ensures NextTerm(g) % 2 == (g + 1) % 2
  {
    OddMultiple(g);
    SameParity(A * g, g);
  }

  lemma SameParity(x: nat, y: nat)
    requires x % 2 == y % 2
    ensures (x + 1) % 2 == (y + 1) % 2
  {
  }

  lemma {:induction false} GeometricParity(n: nat)
    ensures Geometric(n) % 2 == n % 2
  {
    hide NextTerm;
    if n > 0 {
      GeometricParity(n - 1);
      ParityFlips(Geometric(n - 1));
    }
  }

  lemma OddMultiple(g: int)
    ensures A * g % 2 == g % 2
  {
    assert A * g == 2 * (A / 2 * g) + g;
  }

  lemma OddFactor(g: nat)
    ensures (1 + (A - 1) / 2 * g) % 2 == 1
  {
    assert (A - 1) / 2 == 2 * 53503;
  }

  /** The geometric sum has exactly the powers of two that its length has, as A is 1 modulo 4. */
  lemma {:induction false} GeometricHalves(k: nat, n: nat)
    ensures Halves(k, Geometric(n)) <==> Halves(k, n)
  {
    GeometricParity(n);
    if k > 0 && n % 2 == 0 {
      var m := n / 2;
      var g := Geometric(m);
      GeometricDoubles(m);
      var odd := 1 + (A - 1) / 2 * g;
      OddFactor(g);
      HalvesOddFactor(k - 1, g, odd);
      GeometricHalves(k - 1, m);
    }
  }

  // ---- The period ----

  lemma {:induction false} Pow2Add(m: nat, n: nat)
    ensures Pow2(m + n) == Pow2(m) * Pow2(n)
  {
    if n > 0 {
      Pow2Add(m, n - 1);
      assert Pow2(m) * Pow2(n) == 2 * (Pow2(m) * Pow2(n - 1));
    }
  }

  lemma ModulusIsPow2()
    ensures Pow2(32) == MODULUS
  {
    assert Pow2(4) == 16 by { assert Pow2(2) == 4; }
    Pow2Add(4, 4);
    Pow2Add(8, 8);
    Pow2Add(16, 16);
  }

  /** Reducing modulo 2^32 does not touch the low k bits. */
  lemma LowBitsOfReduced(u: nat, k: nat)
    requires k <= 32
    ensures u % MODULUS % Pow2(k) == u % Pow2(k)
  {
    ModulusIsPow2();
    Pow2Add(k, 32 - k);
    RestOfRest(u, Pow2(k), Pow2(32 - k));
  }

  lemma RestOfRest(u: nat, p: nat, q: nat)
    requires p > 0 && q > 0
    ensures p * q > 0 && u % (p * q) % p == u % p
  {
    assert p * q > 0;
    var d, r := u / (p * q), u % (p * q);
    assert u == p * q * d + r == p * (q * d) + r;
    SameRest(r, p, q * d);
  }

  lemma SameRest(r: int, p: nat, m: int)
    requires p > 0
    ensures (p * m + r) % p == r % p
  {
    var d, e := r / p, r % p;
    assert p * m + r == p * (m + d) + e;
    RestIsUnique(p * m + r, p, m + d, e);
  }

  lemma EqualRests(u: int, v: int, p: nat)
    requires p > 0
    ensures u % p == v % p <==> (u - v) % p == 0
  {
    var m := v / p;
    SameRest(u - v, p, 0);
    if (u - v) % p == 0 {
      assert u == p * ((u - v) / p) + v;
      SameRest(v, p, (u - v) / p);
    }
    if u % p == v % p {
      assert u - v == p * (u / p - v / p);
      MultipleHasNoRest(u / p - v / p, p);
    }
  }

  lemma OddIncrement(x: nat)
    ensures ((A - 1) * x + C) % 2 == 1
  {
    assert (A - 1) * x + C == 2 * (107006 * x + 1265505) + 1;
  }

  /** The low k bits of the seed come back after exactly the multiples of 2^k steps. */
  lemma LowBitsPeriod(x: nat, k: nat, n: nat)
    requires x < MODULUS && k <= 32
    ensures Iterate(x, n) % Pow2(k) == x % Pow2(k) <==> n % Pow2(k) == 0
  {
    var u := Unreduced(x, n);
    IterateReduces(x, n);
    LowBitsOfReduced(u, k);
    EqualRests(u, x, Pow2(k));
    UnreducedClosed(x, n);
    var h := (A - 1) * x + C;
    OddIncrement(x);
    HalvesOddFactor(k, Geometric(n), h);
    GeometricHalves(k, n);
    HalvesIsDivisible(k, Geometric(n) * h);
    HalvesIsDivisible(k, n);
  }

  lemma IterateSmall(x: nat, n: nat)
    requires x < MODULUS
    ensures Iterate(x, n) < MODULUS
  {
  }

  /** From any seed the generator is back at its start after exactly the multiples of 2^32 steps. */
  lemma FullPeriod(x: nat, n: nat)
    requires x < MODULUS
    ensures Iterate(x, n) == x <==> n % MODULUS == 0
  {
    hide Iterate, Next, Pow2;
    ModulusIsPow2();
    LowBitsPeriod(x, 32, n);
    IterateSmall(x, n);
  }

  lemma {:induction false} IterateAdds(x: nat, m: nat, n: nat)
    ensures Iterate(x, m + n) == Iterate(Iterate(x, m), n)
  {
    if n > 0 {
      IterateAdds(x, m, n - 1);
    }
  }

  /** Within one period no seed repeats. */
  lemma SeedsDiffer(x: nat, m: nat, n: nat)
    requires x < MODULUS && m < n < m + MODULUS
    ensures Iterate(x, m) != Iterate(x, n)
  {
    IterateSmall(x, m);
    IterateAdds(x, m, n - m);
    FullPeriod(Iterate(x, m), n - m);
  }

  /** The low k bits take every value within 2^k steps: if they miss by bit k, 2^k steps more flip it. */
  lemma {:induction false} LowBitsReached(x: nat, t: nat, k: nat) returns (n: nat)
    requires x < MODULUS && k <= 32
    ensures n < Pow2(k) && Iterate(x, n) % Pow2(k) == t % Pow2(k)
  {
    if k == 0 {
      n := 0;
    } else {
      var m := LowBitsReached(x, t, k - 1);
      var p := Pow2(k - 1);
      var y, z := Iterate(x, m), Iterate(x, m + p);
      if y % Pow2(k) == t % Pow2(k) {
        n := m;
      } else {
        n := m + p;
        IterateSmall(x, m);
        IterateAdds(x, m, p);
        LowBitsPeriod(y, k - 1, p);
        LowBitsPeriod(y, k, p);
        MultipleHasNoRest(1, p);
        RestIsUnique(p, 2 * p, 0, p);
        OneBitMore(y, t, p);
        OneBitMore(z, y, p);
        OneBitMore(z, t, p);
      }
    }
  }

  /** Numbers that agree modulo p agree modulo 2p, or differ by p there. */
  lemma OneBitMore(u: nat, v: nat, p: nat)
    requires p > 0 && u % p == v % p
    ensures u % (2 * p) == v % (2 * p) || u % (2 * p) - v % (2 * p) == p || v % (2 * p) - u % (2 * p) == p
    ensures u % (2 * p) == u % p || u % (2 * p) == u % p + p
  {
    RestByHalf(u, p);
    RestByHalf(v, p);
  }

  lemma RestByHalf(u: nat, p: nat)
    requires p > 0
    ensures u % (2 * p) == u % p || u % (2 * p) == u % p + p
  {
    var d, r := u / (2 * p), u % (2 * p);
    assert u == p * (2 * d) + r;
    SameRest(r, p, 2 * d);
    if r < p {
      RestIsUnique(r, p, 0, r);
    } else {
      RestIsUnique(r, p, 1, r - p);
    }
  }

  /** Every 32-bit value is a seed somewhere in the period. */
  lemma EverySeedReached(x: nat, t: nat) returns (n: nat)
    requires x < MODULUS && t < MODULUS
    ensures n < MODULUS && Iterate(x, n) == t
  {
    ModulusIsPow2();
    n := LowBitsReached(x, t, 32);
    IterateSmall(x, n);
  }

  // ---- Draws ----

  /** The operator ^ on unsigned numbers, bit by bit. */
  function Xor(a: nat, b: nat): nat {
    if a == 0 && b == 0 then 0 else 2 * Xor(a / 2, b / 2) + if a % 2 == b % 2 then 0 else 1
  }

  /** The operator >> on unsigned numbers. */
  function Shifted(a: nat, k: nat): (r: nat)
    ensures r <= a && (k > 0 && a > 0 ==> r < a)
  {
    if k == 0 then a else Shifted(a / 2, k - 1)
  }

  /** seed ^ seed >> 15, the word every draw is taken from. */
  function WordOf(seed: nat): nat {
    Xor(seed, Shifted(seed, 15))
  }

  /** Random_Int(min, max) from the seed it has just stepped to. */
  function Draw(seed: nat, min: int, max: int): (r: int)
    requires seed < MODULUS && min <= max
    ensures min <= r <= max
  {
    min + WordOf(seed) % (max - min + 1)
  }

  class CRandom {
    var m_nSeed: nat

    ghost predicate Valid()
      reads this
    {
      m_nSeed < MODULUS
    }

    /** The two arguments are the times in milliseconds at the two points that read the clock. */
    constructor (now: nat, later: nat)
      ensures Valid() && m_nSeed == if now % MODULUS == 0 then later % MODULUS else now % MODULUS
    {
      m_nSeed := now % MODULUS;
      new;
      RandomSeed(m_nSeed, later);
    }

    /** A zero seed asks for the time. */
    method RandomSeed(seed: nat, now: nat)
      requires seed < MODULUS
      modifies this
      ensures Valid() && m_nSeed == if seed == 0 then now % MODULUS else seed
    {
      if seed == 0 {
        m_nSeed := now % MODULUS;
      } else {
        m_nSeed := seed;
      }
    }

    method GetNextSeed() returns (seed: nat)
      requires Valid()
      modifies this
      ensures Valid() && seed == m_nSeed == Iterate(old(m_nSeed), 1)
    {
      assert Iterate(m_nSeed, 1) == Next(Iterate(m_nSeed, 0));
      m_nSeed := (214013 * m_nSeed + 2531011) % MODULUS;
      seed := m_nSeed;
    }

    /** The range fits in an int, as max - min + 1 is computed in one. */
    method RandomInt(min: int, max: int) returns (r: int)
      requires Valid() && min <= max && max - min + 1 < 0x8000_0000
      modifies this
      ensures Valid() && m_nSeed == Iterate(old(m_nSeed), 1)
      ensures r == Draw(m_nSeed, min, max) && min <= r <= max
    {
      hide WordOf;
      var seed := GetNextSeed();
      r := min + WordOf(m_nSeed) % (max - min + 1);
    }
  }
}
