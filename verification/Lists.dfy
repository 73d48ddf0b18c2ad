/** Lists of distinct items, as the pools keep them. */
module Lists {

  ghost predicate Distinct<T>(s: seq<T>) {
    forall i, k | 0 <= i < k < |s| :: s[i] != s[k]
  }

  ghost predicate Apart<T>(s: seq<T>, t: seq<T>) {
    forall x | x in s :: x !in t
  }

  function Without<T>(s: seq<T>, i: nat): seq<T>
    requires i < |s|
  {
    s[..i] + s[i + 1..]
  }

  lemma WithoutDistinct<T>(s: seq<T>, i: nat)
    requires Distinct(s) && i < |s|
    ensures Distinct(Without(s, i))
    ensures forall x :: x in Without(s, i) <==> x in s && x != s[i]
  {
    forall x
      ensures x in Without(s, i) <==> x in s && x != s[i]
    {
      if x in s && x != s[i] {
        var k :| 0 <= k < |s| && s[k] == x;
        assert if k < i then Without(s, i)[k] == x else Without(s, i)[k - 1] == x;
      }
    }
  }

  lemma AppendDistinct<T>(s: seq<T>, x: T)
    requires Distinct(s) && x !in s
    ensures Distinct(s + [x])
    ensures forall y :: y in s + [x] <==> y in s || y == x
  {
  }

  /** Two lists that together hold each of `all` once and nothing else. */
  ghost predicate Divides<T>(all: seq<T>, s: seq<T>, t: seq<T>) {
    && Distinct(s) && Distinct(t) && Apart(s, t)
    && (forall x | x in all :: x in s || x in t)
    && (forall x | x in s :: x in all) && (forall x | x in t :: x in all)
  }
}
