/** The weighted choice of weights.cpp and StdRandom.h: shuffling moves the weights together
    with the indices, and every index keeps exactly its weight in draws. */
module Weights {
  import opened Generator

  function Sum(w: seq<int>): int {
    if w == [] then 0 else w[0] + Sum(w[1..])
  }

  ghost predicate NonNegative(w: seq<int>) {
    forall k | 0 <= k < |w| :: w[k] >= 0
  }

  /** Position at which the running total reaches r; the length if it never does. */
  function Pick(w: seq<int>, r: int): (i: nat)
    ensures i <= |w|
  {
    if w == [] || r <= w[0] then 0 else 1 + Pick(w[1..], r - w[0])
  }

  lemma {:induction false} PickInRange(w: seq<int>, r: int)
    requires 1 <= r <= Sum(w)
    ensures Pick(w, r) < |w|
  {
    if r > w[0] {
      PickInRange(w[1..], r - w[0]);
    }
  }

  // ---- How many draws a position gets ----

  /** Position i owns the w[i] draws after those of the positions before it. */
  lemma {:induction false} PickIs(w: seq<int>, r: int, i: nat)
    requires NonNegative(w) && r >= 1 && i < |w|
    ensures Pick(w, r) == i <==> Sum(w[..i]) < r <= Sum(w[..i]) + w[i]
  {
    if i > 0 {
      assert w[..i][1..] == w[1..][..i - 1];
      SumNonNegative(w[..i][1..]);
      if r > w[0] {
        PickIs(w[1..], r - w[0], i - 1);
      }
    }
  }

  lemma {:induction false} SumNonNegative(w: seq<int>)
    requires NonNegative(w)
    ensures Sum(w) >= 0
  {
    if w != [] {
      SumNonNegative(w[1..]);
    }
  }

  lemma {:induction false} SumSplits(w: seq<int>, i: nat)
    requires i <= |w|
    ensures Sum(w) == Sum(w[..i]) + Sum(w[i..])
  {
    if i > 0 {
      assert w[..i][1..] == w[1..][..i - 1] && w[1..][i - 1..] == w[i..];
      SumSplits(w[1..], i - 1);
    } else {
      assert w[0..] == w;
    }
  }

  /** The index an arrangement of weights answers for a draw. With a sum of at most one the
      code draws nothing and answers the first index. */
  function Chosen(w: seq<int>, index: seq<nat>, r: int): nat
    requires |w| == |index| > 0
  {
    if Sum(w) <= 1 || Pick(w, r) == |w| then index[0] else index[Pick(w, r)]
  }

  /** Number of draws among 1..n that give index j. */
  function Draws(w: seq<int>, index: seq<nat>, j: nat, n: nat): nat
    requires |w| == |index| > 0
  {
    if n == 0 then 0 else Draws(w, index, j, n - 1) + if Chosen(w, index, n) == j then 1 else 0
  }

  /** An arrangement of the original weights: each position holds some original index with its
      weight, and `place` tells where. */
  ghost predicate Arranged(w: seq<int>, index: seq<nat>, place: seq<nat>, original: seq<int>) {
    && |w| == |index| == |place| == |original|
    && (forall k | 0 <= k < |w| :: index[k] < |w| && place[index[k]] == k && w[k] == original[index[k]])
    && (forall j | 0 <= j < |w| :: place[j] < |w| && index[place[j]] == j)
  }

  lemma {:induction false} DrawsSoFar(w: seq<int>, index: seq<nat>, place: seq<nat>, original: seq<int>, j: nat, n: nat)
    requires Arranged(w, index, place, original) && NonNegative(w) && j < |w| && 2 <= Sum(w) && n <= Sum(w)
    ensures var before := Sum(w[..place[j]]);
            Draws(w, index, j, n) == if n <= before then 0 else if n <= before + original[j] then n - before else original[j]
  {
    var i := place[j];
    SumNonNegative(w[..i]);
    if n > 0 {
      DrawsSoFar(w, index, place, original, j, n - 1);
      PickIs(w, n, i);
      PickInRange(w, n);
    }
  }

  /** Exactly original[j] of the draws 1..sum give index j, for every arrangement and every j —
      unless the sum is one and the only weight does not come first. */
  lemma ExactShares(w: seq<int>, index: seq<nat>, place: seq<nat>, original: seq<int>)
    requires Arranged(w, index, place, original) && NonNegative(w) && w != []
    ensures Sum(w) >= 0
    ensures (forall j | 0 <= j < |w| :: Draws(w, index, j, Sum(w)) == original[j]) <==> Sum(w) != 1 || w[0] == 1
  {
    SumNonNegative(w);
    if Sum(w) >= 2 {
      forall j | 0 <= j < |w|
        ensures Draws(w, index, j, Sum(w)) == original[j]
      {
        var i := place[j];
        DrawsSoFar(w, index, place, original, j, Sum(w));
        SumSplits(w, i);
        SumNonNegative(w[i..][1..]);
        assert w[i..][0] == w[i] == original[j];
      }
    } else if Sum(w) == 0 {
      forall j | 0 <= j < |w|
        ensures Draws(w, index, j, 0) == original[j]
      {
        AtMostSum(w, place[j]);
      }
    } else {
      OneWeight(w, index, place, original);
    }
  }

  lemma {:induction false} AtMostSum(w: seq<int>, i: nat)
    requires NonNegative(w) && i < |w|
    ensures w[i] <= Sum(w)
  {
    SumSplits(w, i);
    SumNonNegative(w[..i]);
    SumNonNegative(w[i..][1..]);
  }

  lemma OneWeight(w: seq<int>, index: seq<nat>, place: seq<nat>, original: seq<int>)
    requires Arranged(w, index, place, original) && NonNegative(w) && Sum(w) == 1 && w != []
    ensures (forall j | 0 <= j < |w| :: Draws(w, index, j, 1) == original[j]) <==> w[0] == 1
  {
    assert forall j: nat :: Draws(w, index, j, 0) == 0;
    assert forall j: nat :: Draws(w, index, j, 1) == if index[0] == j then 1 else 0;
    assert Draws(w, index, index[0], 1) == 1 && original[index[0]] == w[0];
    if w[0] == 1 {
      forall j | 0 <= j < |w|
        ensures Draws(w, index, j, 1) == original[j]
      {
        if j != index[0] {
          SumNonNegative(w[1..][..place[j] - 1]);
          SumSplits(w[1..], place[j] - 1);
          SumNonNegative(w[1..][place[j] - 1..][1..]);
          assert w[1..][place[j] - 1] == original[j];
        }
      }
    }
  }

  // ---- Shuffling ----

  function Swapped<T>(s: seq<T>, i: nat, j: nat): seq<T>
    requires i < |s| && j < |s|
  {
    s[i := s[j]][j := s[i]]
  }

  /** Exchanging two weights and the two indices keeps the arrangement. */
  lemma SwapArranged(w: seq<int>, index: seq<nat>, place: seq<nat>, original: seq<int>, i: nat, j: nat)
    returns (place': seq<nat>)
    requires Arranged(w, index, place, original) && i < |w| == |index| && j < |w|
    ensures Arranged(Swapped(w, i, j), Swapped(index, i, j), place', original)
  {
    var index' := Swapped(index, i, j);
    place' := Swapped(place, index[i], index[j]);
    forall k | 0 <= k < |w|
      ensures index'[k] < |w| && place'[index'[k]] == k && Swapped(w, i, j)[k] == original[index'[k]]
    {
      assert place[index[k]] == k;
    }
    forall m | 0 <= m < |w|
      ensures place'[m] < |w| && index'[place'[m]] == m
    {
      assert index[place[m]] == m;
    }
  }

  lemma ArrangedLengths(w: seq<int>, index: seq<nat>, place: seq<nat>, original: seq<int>)
    requires Arranged(w, index, place, original)
    ensures |w| == |index| == |original|
  {
  }

  lemma SwapKeepsSum(w: seq<int>, i: nat, j: nat)
    requires i < |w| && j < |w|
    ensures Sum(Swapped(w, i, j)) == Sum(w)
  {
    SumUpdated(w, i, w[j]);
    SumUpdated(w[i := w[j]], j, w[i]);
  }

  lemma {:induction false} SumUpdated(w: seq<int>, i: nat, v: int)
    requires i < |w|
    ensures Sum(w[i := v]) == Sum(w) - w[i] + v
  {
    SumSplits(w, i);
    SumSplits(w[i := v], i);
    assert w[i := v][..i] == w[..i] && w[i := v][i..][1..] == w[i..][1..];
  }

  /** The first t exchanges of shuffleSeq: exchange number t goes to the position the sweep has
      reached, with a partner drawn from the seed t steps on. */
  function Exchanged<T>(s: seq<T>, seed: nat, t: nat): (r: seq<T>)
    ensures |r| == |s|
  {
    if t == 0 || s == [] then
      s
    else
      Swapped(Exchanged(s, seed, t - 1), (t - 1) % |s|, Partner(Next(Iterate(seed, t - 1)), |s|))
  }

  function Partner(seed: nat, n: nat): (j: nat)
    requires n > 0 && seed < MODULUS
    ensures j < n
  {
    Draw(seed, 100, 100000) % n
  }

  lemma ExchangedCases<T>(s: seq<T>, seed: nat, t: nat)
    ensures t == 0 || s == [] ==> Exchanged(s, seed, t) == s
    ensures t > 0 && s != [] ==>
              Exchanged(s, seed, t)
              == Swapped(Exchanged(s, seed, t - 1), (t - 1) % |s|, Partner(Next(Iterate(seed, t - 1)), |s|))
  {
    hide Partner, Swapped;
  }

  /** Exchange number i of a sweep that starts after t exchanges. */
  lemma NextExchange<T>(s: seq<T>, seed: nat, t: nat, i: nat)
    requires i < |s| && t % |s| == 0
    ensures Exchanged(s, seed, t + i + 1)
         == Swapped(Exchanged(s, seed, t + i), i, Partner(Next(Iterate(seed, t + i)), |s|))
  {
    hide Partner, Swapped;
    SameRest(i, |s|, t / |s|);
    RestIsUnique(i, |s|, 0, i);
    assert t + i == |s| * (t / |s|) + i;
  }

  lemma IterateNext(seed: nat, t: nat)
    ensures Iterate(seed, t + 1) == Next(Iterate(seed, t))
  {
  }

  lemma ShuffleStart<S, T>(s: seq<S>, index: seq<T>, seed: nat)
    ensures Iterate(seed, 1) < MODULUS
    ensures Exchanged(s, Iterate(seed, 1), 0) == s && Exchanged(index, Iterate(seed, 1), 0) == index
    ensures Iterate(Iterate(seed, 1), 0) == Iterate(seed, 1)
  {
  }

  lemma MultipleRest(k: nat, n: nat)
    ensures n > 0 ==> k * n % n == 0
    ensures (k + 1) * n == k * n + n
  {
    if n > 0 {
      MultipleHasNoRest(k, n);
    }
  }

  /** However often it is shuffled, an arrangement of the original weights stays one. */
  lemma {:induction false} ShuffleArranged(w: seq<int>, index: seq<nat>, place: seq<nat>, original: seq<int>,
                                           seed: nat, t: nat) returns (place': seq<nat>)
    requires Arranged(w, index, place, original)
    ensures Arranged(Exchanged(w, seed, t), Exchanged(index, seed, t), place', original)
    ensures Sum(Exchanged(w, seed, t)) == Sum(w)
  {
    hide Partner, Arranged, Sum, Swapped, Exchanged, Iterate, Next;
    ArrangedLengths(w, index, place, original);
    ExchangedCases(w, seed, t);
    ExchangedCases(index, seed, t);
    if t == 0 || w == [] {
      place' := place;
    } else {
      var before := ShuffleArranged(w, index, place, original, seed, t - 1);
      var w', index' := Exchanged(w, seed, t - 1), Exchanged(index, seed, t - 1);
      var i, j := (t - 1) % |w|, Partner(Next(Iterate(seed, t - 1)), |w|);
      ArrangedLengths(w', index', before, original);
      place' := SwapArranged(w', index', before, original, i, j);
      SwapKeepsSum(w', i, j);
    }
  }

  function Identity(n: nat): seq<nat> {
    seq(n, i => i)
  }

  /** After any number of exchanges, exactly original[j] of the draws 1..sum answer index j. */
  lemma SharesSurviveShuffling(original: seq<int>, seed: nat, t: nat, j: nat)
    requires NonNegative(original) && Sum(original) != 1 && j < |original|
    ensures Sum(original) >= 0
    ensures Draws(Exchanged(original, seed, t), Exchanged(Identity(|original|), seed, t), j, Sum(original))
         == original[j]
  {
    var w, index := Exchanged(original, seed, t), Exchanged(Identity(|original|), seed, t);
    var place := ShuffleArranged(original, Identity(|original|), Identity(|original|), original, seed, t);
    ArrangedNonNegative(w, index, place, original);
    ExactShares(w, index, place, original);
  }

  lemma ArrangedNonNegative(w: seq<int>, index: seq<nat>, place: seq<nat>, original: seq<int>)
    requires Arranged(w, index, place, original) && NonNegative(original)
    ensures NonNegative(w)
  {
  }

  // ---- The pool of weights.cpp ----

  const MAX_WEIGHT: nat := 10
  const INT_MAX: nat := 0x7FFF_FFFF

  /** The loop that subtracts weight after weight from the draw. */
  method FirstReaching(weight: array<int>, len: nat, r: int) returns (i: nat)
    requires len <= weight.Length && 1 <= r <= Sum(weight[..len])
    ensures i < len && i == Pick(weight[..len], r)
  {
    ghost var w := weight[..len];
    PickInRange(w, r);
    var c := r;
    i := 0;
    while i < len
      invariant i <= len && Pick(w, r) == i + Pick(w[i..], c) && Pick(w, r) < len
    {
      assert w[i..][0] == weight[i] && w[i..][1..] == w[i + 1..];
      c := c - weight[i];
      if c <= 0 {
        return;
      }
      i := i + 1;
    }
    assert false;
  }

  method Total(weight: array<int>, len: nat) returns (sum: int)
    requires len <= weight.Length
    ensures sum == Sum(weight[..len])
  {
    sum := 0;
    for i := 0 to len
      invariant sum == Sum(weight[..i])
    {
      SumSplits(weight[..i + 1], i);
      assert weight[..i + 1][..i] == weight[..i] && weight[..i + 1][i..] == [weight[i]];
      assert Sum([weight[i]]) == weight[i] + Sum([weight[i]][1..]);
      sum := sum + weight[i];
    }
  }

  /** The position a weighted draw falls on; one draw is taken unless the sum is at most one. */
  method GetResultByWeight(weight: array<int>, len: nat, random: CRandom) returns (i: nat)
    requires random.Valid() && len <= weight.Length
    requires NonNegative(weight[..len]) && Sum(weight[..len]) <= INT_MAX
    modifies random
    ensures random.Valid()
    ensures Sum(weight[..len]) <= 1 ==> i == 0 && random.m_nSeed == old(random.m_nSeed)
    ensures Sum(weight[..len]) > 1 ==>
              && random.m_nSeed == Iterate(old(random.m_nSeed), 1)
              && i == Pick(weight[..len], Draw(random.m_nSeed, 1, Sum(weight[..len]))) < len
  {
    var sum := Total(weight, len);
    if sum <= 1 {
      return 0;
    }
    var r := random.RandomInt(1, sum);
    i := FirstReaching(weight, len, r);
  }

  class CWeight {
    var count_: nat
    const weights_: array<int>
    const indexID_: array<nat>
    ghost var place: seq<nat>
    ghost var original: seq<int>

    ghost predicate Valid()
      reads this, weights_, indexID_
    {
      && weights_.Length == indexID_.Length == MAX_WEIGHT
      && count_ <= MAX_WEIGHT
      && Arranged(Weights(), Indices(), place, original)
      && Sum(Weights()) == Sum(original)
    }

    ghost function Weights(): seq<int>
      requires weights_.Length == MAX_WEIGHT && count_ <= MAX_WEIGHT
      reads this, weights_
    {
      weights_[..count_]
    }

    ghost function Indices(): seq<nat>
      requires indexID_.Length == MAX_WEIGHT && count_ <= MAX_WEIGHT
      reads this, indexID_
    {
      indexID_[..count_]
    }

    constructor ()
      ensures Valid() && count_ == 0 && original == []
      ensures fresh(weights_) && fresh(indexID_)
      ensures forall i | 0 <= i < MAX_WEIGHT :: weights_[i] == 0 && indexID_[i] == 0
    {
      count_ := 0;
      weights_ := new int[MAX_WEIGHT](_ => 0);
      indexID_ := new nat[MAX_WEIGHT](_ => 0);
      place, original := [], [];
    }

    /** More than MAX_WEIGHT weights are refused and change nothing. */
    method Init(weight: array<int>, len: nat)
      requires Valid() && len <= weight.Length && weight != weights_
      modifies this, weights_, indexID_
      ensures Valid()
      ensures len <= MAX_WEIGHT ==>
                && original == Weights() == weight[..len] && Indices() == Identity(len)
      ensures len > MAX_WEIGHT ==>
                && original == old(original) && count_ == old(count_)
                && Weights() == old(Weights()) && Indices() == old(Indices())
    {
      if len > MAX_WEIGHT {
        return;
      }
      for i := 0 to len
        invariant weights_[..i] == weight[..i]
        invariant indexID_[..i] == Identity(i)
      {
        weights_[i] := weight[i];
        indexID_[i] := i;
        assert weights_[..i + 1] == weights_[..i] + [weight[i]];
        assert indexID_[..i + 1] == indexID_[..i] + [i];
      }
      count_ := len;
      original, place := weights_[..len], Identity(len);
    }

    /** One exchange, of the weights and of the indices alike. */
    method Exchange(i: nat, j: nat)
      requires Valid() && i < count_ && j < count_
      modifies weights_, indexID_, this`place
      ensures Valid()
      ensures Weights() == Swapped(old(Weights()), i, j)
      ensures Indices() == Swapped(old(Indices()), i, j)
    {
      ghost var w, index := Weights(), Indices();
      ghost var swapped := SwapArranged(w, index, place, original, i, j);
      SwapKeepsSum(w, i, j);
      if i != j {
        weights_[i], weights_[j] := weights_[j], weights_[i];
        indexID_[i], indexID_[j] := indexID_[j], indexID_[i];
      }
      assert Weights() == Swapped(w, i, j);
      assert Indices() == Swapped(index, i, j);
      place := swapped;
    }

    /** Five to ten sweeps, the number drawn first. */
    method ShuffleSeq(random: CRandom)
      requires Valid() && random.Valid()
      modifies random, this`place, weights_, indexID_
      ensures Valid() && random.Valid()
      ensures var first := Iterate(old(random.m_nSeed), 1);
              var t := Draw(first, 5, 10) * count_;
              && Weights() == Exchanged(old(Weights()), first, t)
              && Indices() == Exchanged(old(Indices()), first, t)
              && random.m_nSeed == Iterate(first, t)
    {
      hide Arranged, Sum, Exchanged, Draw, Next, Iterate;
      ShuffleStart(old(Weights()), old(Indices()), random.m_nSeed);
      var c := random.RandomInt(5, 10);
      ghost var seed := random.m_nSeed;
      for k := 0 to c
        invariant Valid() && random.Valid()
        invariant Weights() == Exchanged(old(Weights()), seed, k * count_)
        invariant Indices() == Exchanged(old(Indices()), seed, k * count_)
        invariant random.m_nSeed == Iterate(seed, k * count_)
      {
        hide Arranged, Sum, Exchanged, Draw, Next;
        MultipleRest(k, count_);
        Sweep(random, seed, k * count_, old(Weights()), old(Indices()));
      }
    }

    /** One pass over all positions, as the exchanges number t, t + 1, ... of a shuffle. */
    method Sweep(random: CRandom, ghost seed: nat, ghost t: nat, ghost w: seq<int>, ghost index: seq<nat>)
      requires Valid() && random.Valid() && |w| == |index| == count_ && seed < MODULUS
      requires count_ > 0 ==> t % count_ == 0
      requires Weights() == Exchanged(w, seed, t) && Indices() == Exchanged(index, seed, t)
      requires random.m_nSeed == Iterate(seed, t)
      modifies random, this`place, weights_, indexID_
      ensures Valid() && random.Valid()
      ensures Weights() == Exchanged(w, seed, t + count_) && Indices() == Exchanged(index, seed, t + count_)
      ensures random.m_nSeed == Iterate(seed, t + count_)
    {
      hide Arranged, Sum, Swapped, Exchanged, Draw, Next;
      for i := 0 to count_
        invariant Valid() && random.Valid()
        invariant Weights() == Exchanged(w, seed, t + i) && Indices() == Exchanged(index, seed, t + i)
        invariant random.m_nSeed == Iterate(seed, t + i)
      {
        NextExchange(w, seed, t, i);
        NextExchange(index, seed, t, i);
        IterateNext(seed, t + i);
        var r := random.RandomInt(100, 100000);
        Exchange(i, r % count_);
      }
    }

    /** The index a weighted draw falls on. */
    method GetResult(random: CRandom) returns (r: nat)
      requires Valid() && random.Valid() && NonNegative(original) && Sum(original) <= INT_MAX
      modifies random
      ensures random.Valid()
      ensures count_ == 0 ==> r == indexID_[0]
      ensures Sum(original) > 1 ==>
                && random.m_nSeed == Iterate(old(random.m_nSeed), 1)
                && r == Chosen(Weights(), Indices(), Draw(random.m_nSeed, 1, Sum(original)))
      ensures Sum(original) <= 1 ==> r == indexID_[0] && random.m_nSeed == old(random.m_nSeed)
    {
      ArrangedNonNegative(Weights(), Indices(), place, original);
      var i := GetResultByWeight(weights_, count_, random);
      r := indexID_[i];
    }
  }
}
