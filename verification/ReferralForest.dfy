/** Teams in a forest of referrals: everybody's total is the own bet plus the totals of the
    direct children, and differences of rates telescope up to the roots. */
module ReferralForest {
  import opened SetSums
  import opened BettingCount

  /** Superiors on file lead up to roots without a cycle: depths shrink on the way. */
  ghost predicate Forest(users: Users, depth: map<int, nat>) {
    && users.Keys <= depth.Keys
    && 0 !in users
    && forall u | u in users && SuperiorOf(users, u) != 0 ::
         SuperiorOf(users, u) in users && depth[SuperiorOf(users, u)] < depth[u]
  }

  /** Everybody above u, nearest first. */
  ghost function Chain(users: Users, depth: map<int, nat>, u: int): seq<int>
    requires Forest(users, depth) && u in users
    decreases depth[u]
  {
    var p := SuperiorOf(users, u);
    if p == 0 then [] else [p] + Chain(users, depth, p)
  }

  ghost function Path(users: Users, depth: map<int, nat>, u: int): seq<int>
    requires Forest(users, depth) && u in users
  {
    [u] + Chain(users, depth, u)
  }

  /** Every bettor's list of superiors is the chain above it, in some order. */
  ghost predicate TrueChains(bettors: seq<Bettor>, users: Users, depth: map<int, nat>)
    requires Forest(users, depth)
  {
    forall b | b in bettors ::
      b.userid in users && multiset(b.superiorAgent) == multiset(Chain(users, depth, b.userid))
  }

  ghost function SupOf(users: Users): int -> int {
    u => SuperiorOf(users, u)
  }

  ghost function Children(s: set<int>, users: Users, u: int): set<int> {
    Fiber(s, SupOf(users), u)
  }

  ghost function Roots(s: set<int>, users: Users): set<int> {
    Fiber(s, SupOf(users), 0)
  }

  // ---- Paths ----

  ghost predicate Within(list: seq<int>, s: set<int>) {
    forall u | u in list :: u in s
  }

  lemma OneOccurrence(s: set<int>, x: int)
    ensures SumOver(s, OccurrencesIn([x])) == if x in s then 1 else 0
  {
    if x in s {
      SumOfOccurrences(s, [x]);
    } else {
      SumOfNothing(s, OccurrencesIn([x]));
    }
  }

  /** Adding a head to a list adds its occurrence. */
  lemma HeadOccurrence(s: set<int>, x: int, list: seq<int>)
    ensures SumOver(s, OccurrencesIn([x] + list)) == (if x in s then 1 else 0) + SumOver(s, OccurrencesIn(list))
    ensures forall u :: multiset([x] + list)[u] == (if u == x then 1 else 0) + multiset(list)[u]
  {
    OneOccurrence(s, x);
    SumOfSums(s, OccurrencesIn([x]), OccurrencesIn(list), OccurrencesIn([x] + list));
  }

  /** A path passes through u from below as often as through u's children. */
  lemma {:induction false} ChainOccurrences(s: set<int>, users: Users, depth: map<int, nat>, x: int, u: int)
    requires Forest(users, depth) && x in users && u != 0 && Within(Path(users, depth, x), s)
    ensures multiset(Chain(users, depth, x))[u] == SumOver(Children(s, users, u), OccurrencesIn(Path(users, depth, x)))
    decreases depth[x]
  {
    var p, kids := SuperiorOf(users, x), Children(s, users, u);
    HeadOccurrence(kids, x, Chain(users, depth, x));
    assert x in Path(users, depth, x);
    if p == 0 {
      SumOfNothing(kids, OccurrencesIn(Chain(users, depth, x)));
    } else {
      assert Chain(users, depth, x) == Path(users, depth, p);
      WithinTail(s, x, Path(users, depth, p));
      ChainOccurrences(s, users, depth, p, u);
      HeadOccurrence(kids, p, Chain(users, depth, p));
    }
  }

  lemma WithinTail(s: set<int>, x: int, list: seq<int>)
    requires Within([x] + list, s)
    ensures Within(list, s) && x in s
  {
    forall u | u in list
      ensures u in s
    {
      assert u in [x] + list;
    }
    assert x in [x] + list;
  }

  /** A path ends in exactly one root. */
  lemma {:induction false} RootOccurrences(s: set<int>, users: Users, depth: map<int, nat>, x: int)
    requires Forest(users, depth) && x in users && Within(Path(users, depth, x), s)
    ensures SumOver(Roots(s, users), OccurrencesIn(Path(users, depth, x))) == 1
    decreases depth[x]
  {
    var p, roots := SuperiorOf(users, x), Roots(s, users);
    HeadOccurrence(roots, x, Chain(users, depth, x));
    assert x in Path(users, depth, x);
    if p == 0 {
      SumOfNothing(roots, OccurrencesIn(Chain(users, depth, x)));
    } else {
      assert Chain(users, depth, x) == Path(users, depth, p);
      WithinTail(s, x, Path(users, depth, p));
      RootOccurrences(s, users, depth, p);
    }
  }

  lemma {:induction false} ChainClosed(users: Users, depth: map<int, nat>, x: int, u: int)
    requires Forest(users, depth) && x in users && u in Path(users, depth, x)
    ensures u in users
    ensures SuperiorOf(users, u) != 0 ==> SuperiorOf(users, u) in Chain(users, depth, x)
    decreases depth[x]
  {
    var p := SuperiorOf(users, x);
    if u != x {
      assert u in Chain(users, depth, x) && Chain(users, depth, x) == Path(users, depth, p);
      ChainClosed(users, depth, p, u);
    }
  }

  // ---- Totals ----

  ghost function BetsThrough(b: Bettor, users: Users, depth: map<int, nat>): int -> int
    requires Forest(users, depth) && b.userid in users
  {
    u => b.bettingScore * multiset(Path(users, depth, b.userid))[u]
  }

  /** Own bet and team bets together. */
  ghost function AllBets(bettors: seq<Bettor>, u: int): int {
    TeamBets(bettors, u) + SelfBets(bettors, u)
  }

  ghost function AllBetsOf(bettors: seq<Bettor>): int -> int {
    u => AllBets(bettors, u)
  }

  ghost function TotalBets(bettors: seq<Bettor>): int {
    if bettors == [] then 0 else TotalBets(Init(bettors)) + Last(bettors).bettingScore
  }

  lemma InitTrue(bettors: seq<Bettor>, users: Users, depth: map<int, nat>)
    requires Forest(users, depth) && TrueChains(bettors, users, depth) && DistinctIds(bettors) && bettors != []
    ensures TrueChains(Init(bettors), users, depth) && DistinctIds(Init(bettors))
    ensures Last(bettors).userid in users
    ensures multiset(Last(bettors).superiorAgent) == multiset(Chain(users, depth, Last(bettors).userid))
  {
    assert Last(bettors) in bettors;
    forall b | b in Init(bettors)
      ensures b in bettors
    {
    }
  }

  lemma {:induction false} NobodysBet(bettors: seq<Bettor>, u: int)
    requires forall b | b in bettors :: b.userid != u
    ensures SelfBets(bettors, u) == 0
  {
    if bettors != [] {
      assert Last(bettors) in bettors;
      NobodysBet(Init(bettors), u);
    }
  }

  lemma OnPath(b: Bettor, chain: seq<int>, u: int)
    requires multiset(b.superiorAgent) == multiset(chain)
    ensures b.bettingScore * multiset([b.userid] + chain)[u] == Share(b, u) + if u == b.userid then b.bettingScore else 0
  {
    var n := multiset(chain)[u];
    assert multiset([b.userid] + chain)[u] == if u == b.userid then n + 1 else n;
    OneMore(n, b.bettingScore);
  }

  /** The last bettor adds its bet to everybody on its path. */
  lemma LastBetThrough(bettors: seq<Bettor>, users: Users, depth: map<int, nat>, u: int)
    requires Forest(users, depth) && TrueChains(bettors, users, depth) && DistinctIds(bettors) && bettors != []
    ensures Last(bettors).userid in users
    ensures AllBets(bettors, u) == AllBets(Init(bettors), u) + BetsThrough(Last(bettors), users, depth)(u)
  {
    InitTrue(bettors, users, depth);
    var b := Last(bettors);
    OnPath(b, Chain(users, depth, b.userid), u);
    hide Chain, Share, Forest, TrueChains;
    if u == b.userid {
      NobodysBet(Init(bettors), u);
    }
  }

  lemma PathTouched(bettors: seq<Bettor>, users: Users, depth: map<int, nat>, s: set<int>)
    requires Forest(users, depth) && TrueChains(bettors, users, depth) && bettors != [] && Touched(bettors) <= s
    ensures Last(bettors).userid in users && Within(Path(users, depth, Last(bettors).userid), s)
  {
    var b := Last(bettors);
    assert b in bettors;
    forall u | u in Path(users, depth, b.userid)
      ensures u in s
    {
      if u != b.userid {
        assert u in multiset(Chain(users, depth, b.userid));
      }
      assert u in TouchedBy(b);
    }
  }

  /** The team's bets are the totals of the direct children. */
  lemma {:induction false} TeamIsChildren(bettors: seq<Bettor>, users: Users, depth: map<int, nat>, s: set<int>, u: int)
    requires Forest(users, depth) && TrueChains(bettors, users, depth) && DistinctIds(bettors)
    requires Touched(bettors) <= s && u != 0
    ensures TeamBets(bettors, u) == SumOver(Children(s, users, u), AllBetsOf(bettors))
    decreases |bettors|
  {
    hide Path;
    var kids := Children(s, users, u);
    if bettors == [] {
      SumOfNothing(kids, AllBetsOf(bettors));
    } else {
      var b := Last(bettors);
      InitTrue(bettors, users, depth);
      TeamIsChildren(Init(bettors), users, depth, s, u);
      PathTouched(bettors, users, depth, s);
      ChainOccurrences(s, users, depth, b.userid, u);
      SumScaled(kids, OccurrencesIn(Path(users, depth, b.userid)), b.bettingScore, BetsThrough(b, users, depth));
      AddLast(bettors, users, depth, kids);
    }
  }

  lemma AddLast(bettors: seq<Bettor>, users: Users, depth: map<int, nat>, s: set<int>)
    requires Forest(users, depth) && TrueChains(bettors, users, depth) && DistinctIds(bettors) && bettors != []
    ensures Last(bettors).userid in users
    ensures SumOver(s, AllBetsOf(bettors))
         == SumOver(s, AllBetsOf(Init(bettors))) + SumOver(s, BetsThrough(Last(bettors), users, depth))
  {
    forall u
      ensures Last(bettors).userid in users
      ensures AllBets(bettors, u) == AllBets(Init(bettors), u) + BetsThrough(Last(bettors), users, depth)(u)
    {
      LastBetThrough(bettors, users, depth, u);
    }
    SumOfSums(s, AllBetsOf(Init(bettors)), BetsThrough(Last(bettors), users, depth), AllBetsOf(bettors));
  }

  /** The roots' totals are all the bets. */
  lemma {:induction false} RootsGetAll(bettors: seq<Bettor>, users: Users, depth: map<int, nat>, s: set<int>)
    requires Forest(users, depth) && TrueChains(bettors, users, depth) && DistinctIds(bettors)
    requires Touched(bettors) <= s
    ensures SumOver(Roots(s, users), AllBetsOf(bettors)) == TotalBets(bettors)
    decreases |bettors|
  {
    hide Path;
    var roots := Roots(s, users);
    if bettors == [] {
      SumOfNothing(roots, AllBetsOf(bettors));
    } else {
      var b := Last(bettors);
      InitTrue(bettors, users, depth);
      RootsGetAll(Init(bettors), users, depth, s);
      PathTouched(bettors, users, depth, s);
      RootOccurrences(s, users, depth, b.userid);
      SumScaled(roots, OccurrencesIn(Path(users, depth, b.userid)), b.bettingScore, BetsThrough(b, users, depth));
      AddLast(bettors, users, depth, roots);
    }
  }

  // ---- Order of totals ----

  ghost predicate NoDebts(bettors: seq<Bettor>) {
    forall b | b in bettors :: b.bettingScore >= 0
  }

  lemma {:induction false} BetsNonNegative(bettors: seq<Bettor>, u: int)
    requires NoDebts(bettors)
    ensures SelfBets(bettors, u) >= 0 && TeamBets(bettors, u) >= 0
  {
    if bettors != [] {
      assert Last(bettors) in bettors;
      BetsNonNegative(Init(bettors), u);
    }
  }

  /** Who is touched is on file, and so is everybody above. */
  lemma {:induction false} TouchedClosed(bettors: seq<Bettor>, users: Users, depth: map<int, nat>, u: int)
    requires Forest(users, depth) && TrueChains(bettors, users, depth) && u in Touched(bettors)
    ensures u in users && u != 0
    ensures SuperiorOf(users, u) == 0 || SuperiorOf(users, u) in Touched(bettors)
  {
    var b := Last(bettors);
    assert b in bettors;
    if u in TouchedBy(b) {
      TouchedPath(b, users, depth, u);
      ChainClosed(users, depth, b.userid, u);
      TouchedPath(b, users, depth, SuperiorOf(users, u));
    } else {
      assert forall c | c in Init(bettors) :: c in bettors;
      TouchedClosed(Init(bettors), users, depth, u);
    }
  }

  lemma TouchedPath(b: Bettor, users: Users, depth: map<int, nat>, u: int)
    requires Forest(users, depth) && b.userid in users
    requires multiset(b.superiorAgent) == multiset(Chain(users, depth, b.userid))
    ensures u in TouchedBy(b) <==> u in Path(users, depth, b.userid)
  {
    assert u in b.superiorAgent <==> u in multiset(Chain(users, depth, b.userid));
  }

  /** A superior's total is at least each child's. */
  lemma TotalsGrow(bettors: seq<Bettor>, users: Users, depth: map<int, nat>, u: int)
    requires Forest(users, depth) && TrueChains(bettors, users, depth) && DistinctIds(bettors) && NoDebts(bettors)
    requires u in Touched(bettors) && SuperiorOf(users, u) != 0
    ensures AllBets(bettors, u) <= AllBets(bettors, SuperiorOf(users, u))
  {
    var p := SuperiorOf(users, u);
    var kids := Children(Touched(bettors), users, p);
    TeamIsChildren(bettors, users, depth, Touched(bettors), p);
    forall c | c in kids
      ensures AllBetsOf(bettors)(c) >= 0
    {
      BetsNonNegative(bettors, c);
    }
    SumAtLeastMember(kids, AllBetsOf(bettors), u);
    BetsNonNegative(bettors, p);
  }

  lemma {:induction false} TotalsGrowUp(bettors: seq<Bettor>, users: Users, depth: map<int, nat>, x: int, u: int)
    requires Forest(users, depth) && TrueChains(bettors, users, depth) && DistinctIds(bettors) && NoDebts(bettors)
    requires x in Touched(bettors) && x in users && u in Chain(users, depth, x)
    ensures AllBets(bettors, x) <= AllBets(bettors, u)
    decreases depth[x]
  {
    var p := SuperiorOf(users, x);
    TotalsGrow(bettors, users, depth, x);
    TouchedClosed(bettors, users, depth, x);
    if u != p {
      TotalsGrowUp(bettors, users, depth, p, u);
    }
  }

  // ---- The stored superior ----

  /** What an entry stores as its superior is the superior on file, or the id of a bettor below. */
  lemma {:induction false} StoredUpCases(bettors: seq<Bettor>, users: Users, u: int) returns (b: Bettor)
    requires u in Touched(bettors)
    ensures StoredUp(bettors, users, u) == SuperiorOf(users, u)
         || (b in bettors && u in b.superiorAgent && StoredUp(bettors, users, u) == b.userid)
  {
    b := Last(bettors);
    if u in Touched(Init(bettors)) {
      b := StoredUpCases(Init(bettors), users, u);
    }
  }

  /** The first bettor to touch u is u. */
  ghost predicate BetFirst(bettors: seq<Bettor>, u: int) {
    exists i | 0 <= i < |bettors| :: bettors[i].userid == u && u !in Touched(bettors[..i])
  }

  /** The stored superior is the one on file exactly when u bet and is read before every bettor
      below. */
  lemma StoredUpIsSuperior(bettors: seq<Bettor>, users: Users, depth: map<int, nat>, u: int)
    requires Forest(users, depth) && TrueChains(bettors, users, depth) && u in Touched(bettors)
    ensures StoredUp(bettors, users, u) == SuperiorOf(users, u) <==> BetFirst(bettors, u)
  {
    hide Touched, StoredUp, SuperiorOf;
    var i := FirstTouch(bettors, users, u);
    var b := bettors[i];
    assert b in bettors;
    if b.userid != u {
      assert u in multiset(Chain(users, depth, b.userid));
      DepthShrinks(users, depth, b.userid, u);
      forall k | 0 <= k < |bettors| && bettors[k].userid == u
        ensures u in Touched(bettors[..k])
      {
        if u !in Touched(bettors[..k]) {
          FirstTouchUnique(bettors, i, k, u);
        }
      }
    }
  }

  /** Bettors as a std::map hands them over, the smallest id first. */
  ghost predicate AscendingIds(bettors: seq<Bettor>) {
    forall i, k | 0 <= i < k < |bettors| :: bettors[i].userid < bettors[k].userid
  }

  /** u bet, and every bettor below has a larger id. */
  ghost predicate SmallestBelow(bettors: seq<Bettor>, u: int) {
    && (exists b | b in bettors :: b.userid == u)
    && forall b | b in bettors && u in b.superiorAgent :: u < b.userid
  }

  /** So which superior is stored depends on the ids alone. */
  lemma StoredUpById(bettors: seq<Bettor>, users: Users, depth: map<int, nat>, u: int)
    requires Forest(users, depth) && TrueChains(bettors, users, depth) && u in Touched(bettors)
    requires AscendingIds(bettors)
    ensures StoredUp(bettors, users, u) == SuperiorOf(users, u) <==> SmallestBelow(bettors, u)
  {
    hide Touched, StoredUp, SuperiorOf;
    StoredUpIsSuperior(bettors, users, depth, u);
    if BetFirst(bettors, u) {
      FirstIsSmallest(bettors, users, depth, u);
    }
    if SmallestBelow(bettors, u) {
      SmallestIsFirst(bettors, u);
    }
  }

  lemma FirstIsSmallest(bettors: seq<Bettor>, users: Users, depth: map<int, nat>, u: int)
    requires Forest(users, depth) && TrueChains(bettors, users, depth)
    requires AscendingIds(bettors) && BetFirst(bettors, u)
    ensures SmallestBelow(bettors, u)
  {
    hide Touched, SuperiorOf;
    var i :| 0 <= i < |bettors| && bettors[i].userid == u && u !in Touched(bettors[..i]);
    forall k | 0 <= k < |bettors| && u in bettors[k].superiorAgent
      ensures u < bettors[k].userid
    {
      TouchedAt(bettors[..i], k, u);
      assert bettors[k] in bettors && u in multiset(Chain(users, depth, bettors[k].userid));
      DepthShrinks(users, depth, bettors[k].userid, u);
    }
  }

  lemma SmallestIsFirst(bettors: seq<Bettor>, u: int)
    requires AscendingIds(bettors) && SmallestBelow(bettors, u)
    ensures BetFirst(bettors, u)
  {
    hide Touched;
    var i :| 0 <= i < |bettors| && bettors[i].userid == u;
    if u in Touched(bettors[..i]) {
      var k := TouchedBySome(bettors[..i], u);
    }
  }

  lemma {:induction false} TouchedBySome(bettors: seq<Bettor>, u: int) returns (k: nat)
    requires u in Touched(bettors)
    ensures k < |bettors| && u in TouchedBy(bettors[k])
  {
    k := |bettors| - 1;
    if u in Touched(Init(bettors)) {
      k := TouchedBySome(Init(bettors), u);
    }
  }

  lemma FirstTouchUnique(bettors: seq<Bettor>, i: nat, k: nat, u: int)
    requires i < |bettors| && u !in Touched(bettors[..i]) && u in TouchedBy(bettors[i])
    requires k < |bettors| && u !in Touched(bettors[..k]) && u in TouchedBy(bettors[k])
    ensures i == k
  {
    TouchedAt(bettors[..k], i, u);
    TouchedAt(bettors[..i], k, u);
  }

  lemma {:induction false} FirstTouch(bettors: seq<Bettor>, users: Users, u: int) returns (i: nat)
    requires u in Touched(bettors)
    ensures i < |bettors| && u !in Touched(bettors[..i]) && u in TouchedBy(bettors[i])
    ensures StoredUp(bettors, users, u) == if bettors[i].userid == u then SuperiorOf(users, u) else bettors[i].userid
  {
    i := |bettors| - 1;
    if u in Touched(Init(bettors)) {
      i := FirstTouch(Init(bettors), users, u);
      assert Init(bettors)[..i] == bettors[..i];
    }
  }

  /** Depths shrink on the way up. */
  lemma {:induction false} DepthShrinks(users: Users, depth: map<int, nat>, x: int, u: int)
    requires Forest(users, depth) && x in users && u in Chain(users, depth, x)
    ensures u in users && depth[u] < depth[x]
    ensures SuperiorOf(users, u) != x && u != x
    decreases depth[x]
  {
    var p := SuperiorOf(users, x);
    if u != p {
      DepthShrinks(users, depth, p, u);
    }
  }

  lemma {:induction false} TouchedAt(bettors: seq<Bettor>, i: nat, u: int)
    requires u !in Touched(bettors)
    ensures i < |bettors| ==> u !in TouchedBy(bettors[i])
  {
    if bettors != [] && i < |bettors| - 1 {
      TouchedAt(Init(bettors), i, u);
    }
  }
}
