/** What one full period of the generator gives: every value of a range, and with weights every
    index, as evenly as 2^32 draws can be shared out. */
module Period {
  import opened FiniteSets
  import opened Generator
  import opened Powers
  import opened Weights

  // ---- The words of a period ----

  /** The word that draw number n after seed x is taken from. */
  function Word(x: nat, n: nat): nat {
    WordOf(Next(Iterate(x, n)))
  }

  lemma {:induction false} XorCommutes(a: nat, b: nat)
    ensures Xor(a, b) == Xor(b, a)
  {
    if a != 0 || b != 0 {
      XorCommutes(a / 2, b / 2);
    }
  }

  lemma {:induction false} XorAssociates(a: nat, b: nat, c: nat)
    ensures Xor(Xor(a, b), c) == Xor(a, Xor(b, c))
    decreases a + b + c
  {
    if a != 0 || b != 0 || c != 0 {
      XorAssociates(a / 2, b / 2, c / 2);
    }
  }

  lemma {:induction false} XorNothing(a: nat)
    ensures Xor(a, 0) == a && Xor(a, a) == 0
  {
    if a != 0 {
      XorNothing(a / 2);
    }
  }

  lemma XorTwice(a: nat, b: nat)
    ensures Xor(Xor(a, b), b) == a
  {
    hide Xor;
    XorAssociates(a, b, b);
    XorNothing(a);
    XorNothing(b);
  }

  lemma {:induction false} XorBelow(a: nat, b: nat, k: nat)
    requires a < Pow2(k) && b < Pow2(k)
    ensures Xor(a, b) < Pow2(k)
  {
    if k > 0 && (a != 0 || b != 0) {
      XorBelow(a / 2, b / 2, k - 1);
    }
  }

  lemma {:induction false} XorShifts(a: nat, b: nat, k: nat)
    ensures Shifted(Xor(a, b), k) == Xor(Shifted(a, k), Shifted(b, k))
  {
    if k > 0 {
      XorShifts(a / 2, b / 2, k - 1);
    }
  }

  lemma CrossOver(w: nat, a: nat, b: nat)
    ensures Xor(Xor(w, a), Xor(w, b)) == Xor(a, b)
  {
    hide Xor;
    XorCommutes(w, a);
    XorAssociates(a, w, Xor(w, b));
    XorAssociates(w, w, b);
    XorNothing(w);
    XorCommutes(0, b);
    XorNothing(b);
  }

  /** Two seeds with the same word differ by a number that is its own shift. */
  lemma WordInjective(s: nat, t: nat)
    requires WordOf(s) == WordOf(t)
    ensures s == t
  {
    var a, b, w := Shifted(s, 15), Shifted(t, 15), WordOf(s);
    hide Xor, Shifted;
    XorTwice(s, a);
    XorTwice(t, b);
    CrossOver(w, a, b);
    XorShifts(s, t, 15);
    assert Xor(s, t) == Shifted(Xor(s, t), 15) == 0;
    XorTwice(s, t);
    XorCommutes(0, t);
    XorNothing(t);
  }

  lemma WordSmall(x: nat, n: nat)
    ensures Word(x, n) < MODULUS
  {
    ModulusIsPow2();
    var s := Next(Iterate(x, n));
    hide Next, Iterate, Xor, Shifted;
    XorBelow(s, Shifted(s, 15), 32);
  }

  lemma WordsDiffer(x: nat, m: nat, n: nat)
    requires x < MODULUS && m < n < MODULUS
    ensures Word(x, m) != Word(x, n)
  {
    IterateNext(x, m);
    IterateNext(x, n);
    hide WordOf, Next, Iterate;
    SeedsDiffer(x, m + 1, n + 1);
    if Word(x, m) == Word(x, n) {
      WordInjective(Next(Iterate(x, m)), Next(Iterate(x, n)));
    }
  }

  ghost function Below(m: nat): (s: set<nat>)
    ensures forall n: nat :: n in s <==> n < m
  {
    var all := Identity(m);
    assert forall n: nat | n < m :: n in all by {
      forall n: nat | n < m
        ensures n in all
      {
        assert all[n] == n;
      }
    }
    set n | n in all
  }

  ghost function WordFrom(x: nat): nat -> nat {
    n => Word(x, n)
  }

  /** Each of the 2^32 words comes exactly once in a period. */
  lemma EveryWordOnce(x: nat)
    requires x < MODULUS
    ensures Injective(Below(MODULUS), WordFrom(x))
    ensures Image(Below(MODULUS), WordFrom(x)) == Below(MODULUS)
  {
    hide Word, Below;
    var f := WordFrom(x);
    forall m, n | m in Below(MODULUS) && n in Below(MODULUS) && m != n
      ensures f(m) != f(n)
    {
      if m < n {
        WordsDiffer(x, m, n);
      } else {
        WordsDiffer(x, n, m);
      }
    }
    forall n | n in Below(MODULUS)
      ensures f(n) in Below(MODULUS)
    {
      WordSmall(x, n);
    }
    OntoItself(Below(MODULUS), f);
  }

  // ---- Numbers with a given rest ----

  ghost function WithRest(m: nat, n: nat, r: nat): set<nat>
    requires n > 0
  {
    set w | w in Below(m) && w % n == r
  }

  /** Of the first m numbers, m / n have the rest r, and one more where r is below m % n. */
  lemma {:induction false} RestsShared(m: nat, n: nat, r: nat)
    requires r < n
    ensures |WithRest(m, n, r)| == m / n + if r < m % n then 1 else 0
  {
    if m == 0 {
      assert WithRest(0, n, r) == {};
      RestIsUnique(0, n, 0, 0);
    } else {
      RestsShared(m - 1, n, r);
      OneMoreNumber(m - 1, n);
      if (m - 1) % n == r {
        assert WithRest(m, n, r) == WithRest(m - 1, n, r) + {m - 1};
      } else {
        assert WithRest(m, n, r) == WithRest(m - 1, n, r);
      }
    }
  }

  lemma OneMoreNumber(m: nat, n: nat)
    requires n > 0
    ensures if m % n == n - 1 then (m + 1) / n == m / n + 1 && (m + 1) % n == 0
            else (m + 1) / n == m / n && (m + 1) % n == m % n + 1
  {
    var d, e := m / n, m % n;
    if e == n - 1 {
      assert n * (d + 1) == n * d + n;
      RestIsUnique(m + 1, n, d + 1, 0);
    } else {
      RestIsUnique(m + 1, n, d, e + 1);
    }
  }

  // ---- Values of a range ----

  ghost function DrawsOf(x: nat, min: int, max: int, v: int): set<nat>
    requires min <= max
  {
    set n | n in Below(MODULUS) && Draw(Next(Iterate(x, n)), min, max) == v
  }

  /** In a period, from any seed, every value of a range of n comes 2^32 / n times, and the first
      2^32 % n of them once more. */
  lemma EveryValueShared(x: nat, min: int, max: int, v: int)
    requires x < MODULUS && min <= v <= max
    ensures var n := max - min + 1;
            |DrawsOf(x, min, max, v)| == MODULUS / n + if v - min < MODULUS % n then 1 else 0
  {
    hide *;
    var n := max - min + 1;
    EveryWordOnce(x);
    DrawsByWord(x, min, max, v);
    InjectiveInside(DrawsOf(x, min, max, v), Below(MODULUS), WordFrom(x));
    ImageSize(DrawsOf(x, min, max, v), WordFrom(x));
    RestsShared(MODULUS, n, v - min);
  }

  lemma InjectiveInside<T, U>(s: set<T>, all: set<T>, f: T -> U)
    requires s <= all && Injective(all, f)
    ensures Injective(s, f)
  {
  }

  lemma InImage<T, U>(s: set<T>, f: T -> U, y: U) returns (x: T)
    requires y in Image(s, f)
    ensures x in s && f(x) == y
  {
    x :| x in s && f(x) == y;
  }

  lemma DrawnWhen(x: nat, min: int, max: int, v: int, k: nat)
    requires min <= v <= max
    ensures WordFrom(x)(k) == Word(x, k)
    ensures k in DrawsOf(x, min, max, v) <==> k in Below(MODULUS) && Word(x, k) % (max - min + 1) == v - min
  {
    hide WordOf, Iterate, Next, Below;
  }

  /** The words of the draws of v are the words with its rest. */
  lemma DrawsByWord(x: nat, min: int, max: int, v: int)
    requires min <= v <= max && Image(Below(MODULUS), WordFrom(x)) == Below(MODULUS)
    ensures DrawsOf(x, min, max, v) <= Below(MODULUS)
    ensures Image(DrawsOf(x, min, max, v), WordFrom(x)) == WithRest(MODULUS, max - min + 1, v - min)
  {
    hide Word, WordFrom, Below, DrawsOf;
    var d, rest := DrawsOf(x, min, max, v), WithRest(MODULUS, max - min + 1, v - min);
    forall k | k in d
      ensures k in Below(MODULUS) && WordFrom(x)(k) in rest
    {
      DrawnWhen(x, min, max, v, k);
      assert WordFrom(x)(k) in Image(Below(MODULUS), WordFrom(x));
    }
    forall w | w in rest
      ensures w in Image(d, WordFrom(x))
    {
      var k := InImage(Below(MODULUS), WordFrom(x), w);
      DrawnWhen(x, min, max, v, k);
    }
  }

  // ---- Weighted choice ----

  /** a, but no less than 0 and no more than k. */
  function Clipped(a: int, k: nat): (c: nat)
    ensures c <= k
  {
    if a <= 0 then 0 else if a < k then a else k
  }

  ghost function DrawsBetween(x: nat, sum: nat, low: nat, k: nat): set<nat>
    requires sum > 0
  {
    set n | n in Below(MODULUS) && low < Draw(Next(Iterate(x, n)), 1, sum) <= low + k
  }

  /** k values after low come k times 2^32 / sum times, and those of them among the first 2^32 % sum
      once more. */
  lemma {:induction false} RangeShared(x: nat, sum: nat, low: nat, k: nat)
    requires x < MODULUS && sum > 0 && low + k <= sum
    ensures |DrawsBetween(x, sum, low, k)| == k * (MODULUS / sum) + Clipped(MODULUS % sum - low, k)
  {
    hide Draw, Next, Iterate, Below;
    if k == 0 {
      assert DrawsBetween(x, sum, low, k) == {};
    } else {
      var v := low + k;
      RangeShared(x, sum, low, k - 1);
      EveryValueShared(x, 1, sum, v);
      assert DrawsBetween(x, sum, low, k) == DrawsBetween(x, sum, low, k - 1) + DrawsOf(x, 1, sum, v);
      assert DrawsBetween(x, sum, low, k - 1) !! DrawsOf(x, 1, sum, v);
      hide DrawsBetween, DrawsOf;
      OneMoreTime(k, MODULUS / sum);
    }
  }

  lemma OneMoreTime(k: nat, q: nat)
    requires k > 0
    ensures k * q == (k - 1) * q + q
  {
  }

  /** The draws of a period that answer index j. */
  ghost function DrawsOfIndex(x: nat, w: seq<int>, index: seq<nat>, j: nat): set<nat>
    requires |w| == |index| > 0 && Sum(w) > 1
  {
    set n | n in Below(MODULUS) && Chosen(w, index, Draw(Next(Iterate(x, n)), 1, Sum(w))) == j
  }

  /** In a period index j is answered 2^32 / sum times for each unit of its weight, and once more for
      each unit that lies among the first 2^32 % sum of all. */
  lemma IndexShared(x: nat, w: seq<int>, index: seq<nat>, place: seq<nat>, original: seq<int>, j: nat)
    requires x < MODULUS && Arranged(w, index, place, original) && NonNegative(w) && j < |w| && Sum(w) > 1
    ensures place[j] < |w| && original[j] >= 0 && Sum(w[..place[j]]) >= 0
    ensures |DrawsOfIndex(x, w, index, j)|
         == original[j] * (MODULUS / Sum(w)) + Clipped(MODULUS % Sum(w) - Sum(w[..place[j]]), original[j])
  {
    var low, k := Sum(w[..place[j]]), w[place[j]];
    PartOfSum(w, place[j]);
    SameDraws(x, w, index, place, original, j);
    hide Sum;
    assert k == original[j];
    hide *;
    RangeShared(x, Sum(w), low, k);
  }

  lemma {:induction false} PartOfSum(w: seq<int>, i: nat)
    requires NonNegative(w) && i < |w|
    ensures Sum(w[..i]) >= 0 && w[i] >= 0 && Sum(w[..i]) + w[i] <= Sum(w)
  {
    SumNonNegative(w[..i]);
    SumSplits(w, i);
    SumNonNegative(w[i..][1..]);
  }

  lemma SameDraws(x: nat, w: seq<int>, index: seq<nat>, place: seq<nat>, original: seq<int>, j: nat)
    requires Arranged(w, index, place, original) && NonNegative(w) && j < |w| && Sum(w) > 1
    requires Sum(w[..place[j]]) >= 0 && w[place[j]] >= 0
    ensures DrawsOfIndex(x, w, index, j) == DrawsBetween(x, Sum(w), Sum(w[..place[j]]), w[place[j]])
  {
    hide Draw, Next, Iterate, Below, Chosen, Sum;
    forall n | n in Below(MODULUS)
      ensures n in DrawsOfIndex(x, w, index, j) <==> n in DrawsBetween(x, Sum(w), Sum(w[..place[j]]), w[place[j]])
    {
      IndexDrawn(w, index, place, original, j, Draw(Next(Iterate(x, n)), 1, Sum(w)));
    }
  }

  lemma IndexDrawn(w: seq<int>, index: seq<nat>, place: seq<nat>, original: seq<int>, j: nat, r: int)
    requires Arranged(w, index, place, original) && NonNegative(w) && j < |w| && 1 < Sum(w) && 1 <= r <= Sum(w)
    ensures Chosen(w, index, r) == j <==> Sum(w[..place[j]]) < r <= Sum(w[..place[j]]) + w[place[j]]
  {
    PickInRange(w, r);
    PickIs(w, r, place[j]);
    hide Pick, Sum;
  }

  /** However often the pool was shuffled, an index comes 2^32 / sum times for each unit of its weight,
      and at most once more for each; exactly so often where the sum divides 2^32. */
  lemma ShuffledShared(x: nat, original: seq<int>, seed: nat, t: nat, j: nat)
    requires x < MODULUS && NonNegative(original) && Sum(original) > 1 && j < |original|
    ensures var w, index := Exchanged(original, seed, t), Exchanged(Identity(|original|), seed, t);
            && Sum(w) == Sum(original)
            && var times := |DrawsOfIndex(x, w, index, j)| - original[j] * (MODULUS / Sum(original));
            && 0 <= times <= original[j]
            && (MODULUS % Sum(original) == 0 ==> times == 0)
  {
    hide *;
    var n := |original|;
    var w, index := Exchanged(original, seed, t), Exchanged(Identity(n), seed, t);
    IdentityArranged(original);
    var place := ShuffleArranged(original, Identity(n), Identity(n), original, seed, t);
    ArrangedNonNegative(w, index, place, original);
    PlaceLength(w, index, place, original);
    ArrangedLengths(w, index, place, original);
    IndexShared(x, w, index, place, original, j);
    NothingOver(MODULUS % Sum(w), Sum(w[..place[j]]), original[j]);
  }

  lemma PlaceLength(w: seq<int>, index: seq<nat>, place: seq<nat>, original: seq<int>)
    requires Arranged(w, index, place, original)
    ensures |place| == |original|
  {
  }

  lemma IdentityArranged(original: seq<int>)
    ensures Arranged(original, Identity(|original|), Identity(|original|), original)
  {
  }

  lemma NothingOver(over: nat, low: nat, k: nat)
    ensures over == 0 ==> Clipped(over - low, k) == 0
  {
  }
}
