/** On a finite set, what can be undone can also be done again: a left inverse is a right inverse. */
module FiniteSets {

  ghost function Image<T, U>(s: set<T>, f: T -> U): set<U> {
    set x | x in s :: f(x)
  }

  ghost predicate Injective<T, U>(s: set<T>, f: T -> U) {
    forall x, y | x in s && y in s && x != y :: f(x) != f(y)
  }

  lemma {:induction false} ImageSize<T, U>(s: set<T>, f: T -> U)
    requires Injective(s, f)
    ensures |Image(s, f)| == |s|
  {
    if x :| x in s {
      ImageSize(s - {x}, f);
      assert f(x) !in Image(s - {x}, f);
      assert Image(s, f) == Image(s - {x}, f) + {f(x)};
    } else {
      assert Image(s, f) == {};
    }
  }

  lemma OntoItself<T>(s: set<T>, f: T -> T)
    requires Injective(s, f) && forall x | x in s :: f(x) in s
    ensures Image(s, f) == s
  {
    ImageSize(s, f);
    SameSize(Image(s, f), s);
  }

  lemma SameSize<T>(s: set<T>, t: set<T>)
    requires s <= t && |s| == |t|
    ensures s == t
  {
    assert |t - s| == |t| - |s|;
  }

  lemma InverseBothWays<T>(s: set<T>, f: T -> T, g: T -> T, y: T)
    requires forall x | x in s :: f(x) in s && g(f(x)) == x
    requires y in s
    ensures f(g(y)) == y
  {
    OntoItself(s, f);
    assert y in Image(s, f);
  }

  // ---- Byte strings of one length ----

  function ByteOf(i: nat): bv8
    requires i < 256
  {
    i as bv8
  }

  ghost function AllBytes(): set<bv8> {
    set i: nat | i < 256 :: ByteOf(i)
  }

  ghost function Strings(n: nat): (s: set<seq<bv8>>)
    ensures forall t | t in s :: |t| == n
  {
    if n == 0 then {[]} else set t, x | t in Strings(n - 1) && x in AllBytes() :: t + [x]
  }

  lemma EveryByte(x: bv8)
    ensures x in AllBytes()
  {
    assert ByteOf(x as int) == x;
  }

  lemma {:induction false} EveryString(t: seq<bv8>)
    ensures t in Strings(|t|)
  {
    if t != [] {
      var n := |t| - 1;
      EveryString(t[..n]);
      EveryByte(t[n]);
      assert t == t[..n] + [t[n]];
    }
  }
}
