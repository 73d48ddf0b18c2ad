/** Sums over finite sets of ids. */
module SetSums {

  lemma Inhabited(s: set<int>)
    ensures s == {} || exists x :: x in s
  {
    if forall x :: x !in s {
      assert s == {};
    }
  }

  ghost function SumOver(s: set<int>, f: int -> int): int {
    if s == {} then
      0
    else
      Inhabited(s);
      var x :| x in s;
      f(x) + SumOver(s - {x}, f)
  }

  lemma {:induction false} SumTakes(s: set<int>, f: int -> int, y: int)
    requires y in s
    ensures SumOver(s, f) == f(y) + SumOver(s - {y}, f)
  {
    Inhabited(s);
    var x :| x in s && SumOver(s, f) == f(x) + SumOver(s - {x}, f);
    if x != y {
      SumTakes(s - {x}, f, y);
      SumTakes(s - {y}, f, x);
      assert s - {x} - {y} == s - {y} - {x};
    }
  }

  lemma SumGrows(s: set<int>, f: int -> int, y: int)
    requires y !in s
    ensures SumOver(s + {y}, f) == SumOver(s, f) + f(y)
  {
    SumTakes(s + {y}, f, y);
    assert s + {y} - {y} == s;
  }

  lemma {:induction false} SumSame(s: set<int>, f: int -> int, g: int -> int)
    requires forall x | x in s :: f(x) == g(x)
    ensures SumOver(s, f) == SumOver(s, g)
  {
    if s != {} {
      Inhabited(s);
      var x :| x in s;
      SumTakes(s, f, x);
      SumTakes(s, g, x);
      SumSame(s - {x}, f, g);
    }
  }

  lemma {:induction false} SumAtMost(s: set<int>, f: int -> int, g: int -> int)
    requires forall x | x in s :: f(x) <= g(x)
    ensures SumOver(s, f) <= SumOver(s, g)
  {
    if s != {} {
      Inhabited(s);
      var x :| x in s;
      SumTakes(s, f, x);
      SumTakes(s, g, x);
      SumAtMost(s - {x}, f, g);
    }
  }

  lemma {:induction false} SumOfSums(s: set<int>, f: int -> int, g: int -> int, h: int -> int)
    requires forall x | x in s :: h(x) == f(x) + g(x)
    ensures SumOver(s, h) == SumOver(s, f) + SumOver(s, g)
  {
    if s != {} {
      Inhabited(s);
      var x :| x in s;
      SumTakes(s, f, x);
      SumTakes(s, g, x);
      SumTakes(s, h, x);
      SumOfSums(s - {x}, f, g, h);
    }
  }

  lemma ScaledSum(c: int, a: int, b: int)
    ensures c * (a + b) == c * a + c * b
  {
  }

  lemma {:induction false} SumScaled(s: set<int>, f: int -> int, c: int, h: int -> int)
    requires forall x | x in s :: h(x) == c * f(x)
    ensures SumOver(s, h) == c * SumOver(s, f)
  {
    if s != {} {
      Inhabited(s);
      var x :| x in s;
      SumTakes(s, f, x);
      SumTakes(s, h, x);
      SumScaled(s - {x}, f, c, h);
      ScaledSum(c, f(x), SumOver(s - {x}, f));
    }
  }

  lemma {:induction false} SumOfNothing(s: set<int>, f: int -> int)
    requires forall x | x in s :: f(x) == 0
    ensures SumOver(s, f) == 0
  {
    if s != {} {
      Inhabited(s);
      var x :| x in s;
      SumTakes(s, f, x);
      SumOfNothing(s - {x}, f);
    }
  }

  lemma {:induction false} SumOfUnion(s: set<int>, t: set<int>, f: int -> int)
    requires s !! t
    ensures SumOver(s + t, f) == SumOver(s, f) + SumOver(t, f)
  {
    if t == {} {
      assert s + t == s;
    } else {
      Inhabited(t);
      var x :| x in t;
      SumOfUnion(s, t - {x}, f);
      SumTakes(t, f, x);
      SumTakes(s + t, f, x);
      assert s + t - {x} == s + (t - {x});
    }
  }

  lemma SumOfPart(s: set<int>, t: set<int>, f: int -> int)
    requires s <= t && forall x | x in t - s :: f(x) == 0
    ensures SumOver(s, f) == SumOver(t, f)
  {
    SumOfUnion(s, t - s, f);
    SumOfNothing(t - s, f);
    assert s + (t - s) == t;
  }

  /** The members of s that `key` sends to u. */
  ghost function Fiber(s: set<int>, key: int -> int, u: int): set<int> {
    set c | c in s && key(c) == u
  }

  /** Summing group by group counts every member of a listed group once. */
  lemma {:induction false} SumOfFibers(s: set<int>, groups: set<int>, key: int -> int, f: int -> int, perGroup: int -> int)
    requires forall u | u in groups :: perGroup(u) == SumOver(Fiber(s, key, u), f)
    ensures SumOver(groups, perGroup) == SumOver((set c | c in s && key(c) in groups), f)
  {
    if groups == {} {
      assert (set c | c in s && key(c) in groups) == {};
    } else {
      Inhabited(groups);
      var u :| u in groups;
      SumTakes(groups, perGroup, u);
      SumOfFibers(s, groups - {u}, key, f, perGroup);
      var rest := set c | c in s && key(c) in groups - {u};
      SumOfUnion(rest, Fiber(s, key, u), f);
      assert rest + Fiber(s, key, u) == set c | c in s && key(c) in groups;
    }
  }

  ghost function OccurrencesIn(list: seq<int>): int -> int {
    u => multiset(list)[u]
  }

  /** A list is as long as its values occur often. */
  lemma {:induction false} SumOfOccurrences(s: set<int>, list: seq<int>)
    requires forall u | u in list :: u in s
    ensures SumOver(s, OccurrencesIn(list)) == |list|
  {
    if list == [] {
      SumOfNothing(s, OccurrencesIn(list));
    } else {
      var rest, x := list[..|list| - 1], list[|list| - 1];
      assert list == rest + [x];
      SumOfOccurrences(s, rest);
      SumTakes(s, OccurrencesIn(list), x);
      SumTakes(s, OccurrencesIn(rest), x);
      SumSame(s - {x}, OccurrencesIn(list), OccurrencesIn(rest));
    }
  }

  lemma SumAtLeastMember(s: set<int>, f: int -> int, y: int)
    requires y in s && forall x | x in s :: f(x) >= 0
    ensures SumOver(s, f) >= f(y)
  {
    SumTakes(s, f, y);
    SumAtMost(s - {y}, Zero(), f);
    SumOfNothing(s - {y}, Zero());
  }

  ghost function Zero(): int -> int {
    u => 0
  }
}
