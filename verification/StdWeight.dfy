/** Class STD::Weight of StdRandom.h: Fisher-Yates shuffling reaches every order by exactly one
    choice of draws, and the stored sum stays the sum. The draws of std::uniform_int_distribution
    are parameters, each anywhere in its range. */
module StdWeight {
  import opened Lists
  import opened Weights

  /** Positions n down to 1 exchanged each with the drawn one at or below it. */
  function Dealt<T>(s: seq<T>, draws: seq<nat>, n: nat): (r: seq<T>)
    requires n < |s| && |draws| == |s| && InRange(draws)
    ensures |r| == |s|
    ensures forall k | n < k < |s| :: r[k] == s[k]
    decreases n
  {
    if n == 0 then s else Dealt(Swapped(s, n, draws[n]), draws, n - 1)
  }

  ghost predicate InRange(draws: seq<nat>) {
    forall k | 0 <= k < |draws| :: draws[k] <= k
  }

  lemma SwappedDistinct<T>(s: seq<T>, i: nat, j: nat)
    requires Distinct(s) && i < |s| && j < |s|
    ensures Distinct(Swapped(s, i, j))
  {
  }

  /** Different draws deal different orders. */
  lemma {:induction false} DealtOnce<T>(s: seq<T>, draws: seq<nat>, others: seq<nat>, n: nat)
    requires Distinct(s) && n < |s| && |draws| == |others| == |s| && InRange(draws) && InRange(others)
    requires Dealt(s, draws, n) == Dealt(s, others, n)
    ensures draws[..n + 1] == others[..n + 1]
    decreases n
  {
    if n > 0 {
      var a, b := Swapped(s, n, draws[n]), Swapped(s, n, others[n]);
      assert Dealt(s, draws, n)[n] == a[n] == s[draws[n]];
      assert Dealt(s, others, n)[n] == b[n] == s[others[n]];
      SwappedDistinct(s, n, draws[n]);
      DealtOnce(a, draws, others, n - 1);
      assert draws[..n + 1] == draws[..n] + [draws[n]];
      assert others[..n + 1] == others[..n] + [others[n]];
    }
  }

  /** Every reordering is dealt by some draws. */
  lemma {:induction false} DealtAll<T>(s: seq<T>, t: seq<T>, n: nat) returns (draws: seq<nat>)
    requires n < |s| == |t| && multiset(s[..n + 1]) == multiset(t[..n + 1]) && s[n + 1..] == t[n + 1..]
    ensures |draws| == |s| && InRange(draws) && Dealt(s, draws, n) == t
    decreases n
  {
    hide Swapped;
    var j := Found(s, t, n);
    if n == 0 {
      draws := seq(|s|, i => 0);
      assert s == [s[0]] + s[1..] && t == [t[0]] + t[1..];
    } else {
      var u := Swapped(s, n, j);
      LastInPlace(s, t, n, j);
      var rest := DealtAll(u, t, n - 1);
      draws := rest[n := j];
      SameDraws(u, rest, draws, n - 1);
    }
  }

  /** Where the value that belongs at position n is. */
  lemma Found<T>(s: seq<T>, t: seq<T>, n: nat) returns (j: nat)
    requires n < |s| == |t| && multiset(s[..n + 1]) == multiset(t[..n + 1])
    ensures j <= n && s[j] == t[n]
  {
    assert t[n] == t[..n + 1][n] && t[n] in multiset(t[..n + 1]);
    assert t[n] in s[..n + 1];
    j :| 0 <= j <= n && s[j] == t[n];
  }

  /** With the right value at position n, what is left to deal is the shorter prefix. */
  lemma LastInPlace<T>(s: seq<T>, t: seq<T>, n: nat, j: nat)
    requires 0 < n < |s| == |t| && multiset(s[..n + 1]) == multiset(t[..n + 1]) && s[n + 1..] == t[n + 1..]
    requires j <= n && s[j] == t[n]
    ensures |Swapped(s, n, j)| == |s| && multiset(Swapped(s, n, j)[..n]) == multiset(t[..n])
    ensures Swapped(s, n, j)[n..] == t[n..]
  {
    hide Swapped;
    var u := Swapped(s, n, j);
    SwapKeepsPrefix(s, n, j);
    PrefixMultiset(u, n);
    PrefixMultiset(t, n);
    assert t[n..] == [t[n]] + t[n + 1..];
  }

  lemma PrefixMultiset<T>(s: seq<T>, n: nat)
    requires n < |s|
    ensures multiset(s[..n + 1]) == multiset(s[..n]) + multiset{s[n]}
    ensures multiset(s[..n]) == multiset(s[..n + 1]) - multiset{s[n]}
  {
    assert s[..n + 1] == s[..n] + [s[n]];
  }

  lemma SwapKeepsPrefix<T>(s: seq<T>, n: nat, j: nat)
    requires j <= n < |s|
    ensures multiset(Swapped(s, n, j)[..n + 1]) == multiset(s[..n + 1])
    ensures |Swapped(s, n, j)| == |s| && Swapped(s, n, j)[n] == s[j]
    ensures Swapped(s, n, j)[n..] == [s[j]] + s[n + 1..]
  {
    assert Swapped(s, n, j)[..n + 1] == Swapped(s[..n + 1], n, j);
  }

  lemma {:induction false} SameDraws<T>(s: seq<T>, draws: seq<nat>, others: seq<nat>, n: nat)
    requires n < |s| == |draws| == |others| && InRange(draws) && InRange(others)
    requires forall k | 0 <= k <= n :: draws[k] == others[k]
    ensures Dealt(s, draws, n) == Dealt(s, others, n)
    decreases n
  {
    if n > 0 {
      SameDraws(Swapped(s, n, draws[n]), draws, others, n - 1);
    }
  }

  /** Uniform draws shuffle uniformly: a reordering of distinct values comes from one choice of
      draws and from no other (the draw for position 0 is never made and counts as 0). */
  lemma EveryOrderOnce<T>(s: seq<T>, t: seq<T>) returns (draws: seq<nat>)
    requires s != [] && Distinct(s) && multiset(s) == multiset(t) && |s| == |t|
    ensures |draws| == |s| && InRange(draws) && Dealt(s, draws, |s| - 1) == t
    ensures forall others: seq<nat> | |others| == |s| && InRange(others) ::
              Dealt(s, others, |s| - 1) == t <==> others == draws
  {
    hide Dealt, InRange, Distinct;
    assert s[..|s|] == s && t[..|s|] == t;
    draws := DealtAll(s, t, |s| - 1);
    forall others: seq<nat> | |others| == |s| && InRange(others) && Dealt(s, others, |s| - 1) == t
      ensures others == draws
    {
      DealtOnce(s, draws, others, |s| - 1);
      assert draws[..|s|] == draws && others[..|s|] == others;
    }
  }

  class Weight {
    var sum_: int
    var weight_: seq<int>
    var indxId_: seq<nat>
    ghost var place: seq<nat>
    ghost var original: seq<int>

    ghost predicate Valid()
      reads this
    {
      Arranged(weight_, indxId_, place, original) && sum_ == Sum(weight_) == Sum(original)
    }

    constructor ()
      ensures Valid() && sum_ == 0 && original == []
    {
      sum_ := 0;
      weight_, indxId_, place, original := [], [], [], [];
    }

    method Init(weight: array<int>, len: nat)
      requires len <= weight.Length
      modifies this
      ensures Valid() && original == weight_ == weight[..len] && indxId_ == Identity(len)
    {
      weight_ := seq(len, i => 0);
      indxId_ := seq(len, i => 0);
      sum_ := 0;
      for i := 0 to len
        invariant |weight_| == |indxId_| == len
        invariant weight_[..i] == weight[..i] && indxId_[..i] == Identity(i)
        invariant sum_ == Sum(weight[..i])
      {
        assert weight[..i + 1] == weight[..i] + [weight[i]];
        SumAppend(weight[..i], weight[i]);
        weight_ := weight_[i := weight[i]];
        indxId_ := indxId_[i := i];
        sum_ := sum_ + weight[i];
        assert weight_[..i + 1] == weight_[..i] + [weight[i]];
        assert indxId_[..i + 1] == indxId_[..i] + [i];
      }
      assert weight_[..len] == weight_ && indxId_[..len] == indxId_;
      original, place := weight_, Identity(len);
    }

    /** draws[i] is what the distribution over 0..i yields for position i. */
    method Shuffle(draws: seq<nat>)
      requires Valid() && |draws| == |weight_| && InRange(draws)
      modifies this
      ensures Valid() && original == old(original) && sum_ == old(sum_)
      ensures weight_ == if old(weight_) == [] then [] else Dealt(old(weight_), draws, |draws| - 1)
      ensures indxId_ == if old(indxId_) == [] then [] else Dealt(old(indxId_), draws, |draws| - 1)
    {
      hide Sum, Swapped, Arranged;
      ArrangedLengths(weight_, indxId_, place, original);
      if |weight_| == 0 {
        return;
      }
      var i := |weight_| - 1;
      while i > 0
        invariant 0 <= i < |draws| == |weight_| == |indxId_|
        invariant Valid() && original == old(original) && sum_ == old(sum_)
        invariant Dealt(weight_, draws, i) == Dealt(old(weight_), draws, |draws| - 1)
        invariant Dealt(indxId_, draws, i) == Dealt(old(indxId_), draws, |draws| - 1)
      {
        var j := draws[i];
        place := SwapArranged(weight_, indxId_, place, original, i, j);
        SwapKeepsSum(weight_, i, j);
        weight_ := Swapped(weight_, i, j);
        indxId_ := Swapped(indxId_, i, j);
        i := i - 1;
      }
    }

    /** draw is what the distribution over 1..sum_ yields; a sum of at most one needs none. */
    method GetResult(draw: int) returns (r: nat)
      requires Valid() && weight_ != [] && (sum_ > 1 ==> 1 <= draw <= sum_)
      ensures r == Chosen(weight_, indxId_, draw)
    {
      if sum_ <= 1 {
        return indxId_[0];
      }
      PickInRange(weight_, draw);
      var c := draw;
      for i := 0 to |weight_|
        invariant Pick(weight_, draw) == i + Pick(weight_[i..], c)
      {
        c := c - weight_[i];
        if c <= 0 {
          return indxId_[i];
        }
        assert weight_[i..][1..] == weight_[i + 1..];
      }
      assert false;
    }
  }

  lemma SumAppend(w: seq<int>, v: int)
    ensures Sum(w + [v]) == Sum(w) + v
  {
    SumSplits(w + [v], |w|);
    assert (w + [v])[..|w|] == w && (w + [v])[|w|..] == [v];
    assert Sum([v]) == v + Sum([v][1..]);
  }
}
