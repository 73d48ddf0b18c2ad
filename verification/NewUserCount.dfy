/** Counting the day's new registrations, for the direct superior and for everybody above. */
module NewUserCount {
  import opened SetSums
  import opened BettingCount

  /** uplist holds the superiors other than the direct one. */
  datatype NewUser = NewUser(userid: int, agentid: int, upUserid: int, uplist: seq<int>)

  datatype Growth = Growth(userid: int, agentid: int, directlyAdd: int, teamAdd: int)

  ghost function Grown(users: seq<NewUser>): set<int> {
    if users == [] then {} else Grown(Init(users)) + GrownBy(Last(users))
  }

  ghost function GrownBy(n: NewUser): set<int> {
    if n.upUserid == 0 then {} else {n.upUserid} + set u | u in n.uplist
  }

  ghost function DirectAdds(users: seq<NewUser>, u: int): int {
    if users == [] then
      0
    else
      DirectAdds(Init(users), u) + if Last(users).upUserid == u != 0 then 1 else 0
  }

  ghost function TeamAdds(users: seq<NewUser>, u: int): int {
    if users == [] then 0 else TeamAdds(Init(users), u) + TeamAddsBy(Last(users), u)
  }

  ghost function TeamAddsBy(n: NewUser, u: int): int {
    if n.upUserid == 0 then 0 else multiset(n.uplist)[u] + if n.upUserid == u then 1 else 0
  }

  ghost function GrownAgent(users: seq<NewUser>, u: int): int {
    if users == [] then 0
    else if u in Grown(Init(users)) then GrownAgent(Init(users), u)
    else Last(users).agentid
  }

  ghost function GrowthOf(users: seq<NewUser>, u: int): Growth {
    Growth(u, GrownAgent(users, u), DirectAdds(users, u), TeamAdds(users, u))
  }

  ghost predicate GrowthCounted(growth: map<int, Growth>, users: seq<NewUser>) {
    && growth.Keys == Grown(users)
    && forall u | u in growth :: growth[u] == GrowthOf(users, u)
  }

  function ListUpTo(n: NewUser, j: nat): NewUser
    requires j <= |n.uplist|
  {
    n.(uplist := n.uplist[..j])
  }

  lemma {:induction false} NotGrown(users: seq<NewUser>, u: int)
    requires u !in Grown(users)
    ensures DirectAdds(users, u) == 0 && TeamAdds(users, u) == 0
  {
    if users != [] {
      assert u !in GrownBy(Last(users));
      NotGrown(Init(users), u);
    }
  }

  lemma NoGrowth(done: seq<NewUser>, n: NewUser)
    requires n.upUserid == 0
    ensures Grown(done + [n]) == Grown(done)
    ensures forall u | u in Grown(done) :: GrowthOf(done + [n], u) == GrowthOf(done, u)
  {
    assert Init(done + [n]) == done && Last(done + [n]) == n;
  }

  lemma DirectGrowth(done: seq<NewUser>, n: NewUser)
    requires n.upUserid != 0
    ensures var now, p := done + [ListUpTo(n, 0)], n.upUserid;
            && Grown(now) == Grown(done) + {p}
            && (forall u | u in Grown(done) && u != p :: GrowthOf(now, u) == GrowthOf(done, u))
            && GrowthOf(now, p) ==
               if p in Grown(done) then
                 GrowthOf(done, p).(directlyAdd := DirectAdds(done, p) + 1, teamAdd := TeamAdds(done, p) + 1)
               else
                 Growth(p, n.agentid, 1, 1)
  {
    var now := done + [ListUpTo(n, 0)];
    assert Init(now) == done && Last(now) == ListUpTo(n, 0);
    if n.upUserid !in Grown(done) {
      NotGrown(done, n.upUserid);
    }
  }

  lemma ListedGrowth(done: seq<NewUser>, n: NewUser, j: nat)
    requires n.upUserid != 0 && j < |n.uplist|
    ensures var was, now, s := done + [ListUpTo(n, j)], done + [ListUpTo(n, j + 1)], n.uplist[j];
            && Grown(now) == Grown(was) + {s}
            && (forall u | u in Grown(was) && u != s :: GrowthOf(now, u) == GrowthOf(was, u))
            && GrowthOf(now, s) ==
               if s in Grown(was) then
                 GrowthOf(was, s).(teamAdd := TeamAdds(was, s) + 1)
               else
                 Growth(s, n.agentid, 0, 1)
  {
    var was, now, s := done + [ListUpTo(n, j)], done + [ListUpTo(n, j + 1)], n.uplist[j];
    assert Init(now) == done == Init(was) && Last(now) == ListUpTo(n, j + 1) && Last(was) == ListUpTo(n, j);
    assert n.uplist[..j + 1] == n.uplist[..j] + [s];
    assert forall u :: TeamAdds(now, u) == TeamAdds(was, u) + if u == s then 1 else 0;
    assert forall u :: DirectAdds(now, u) == DirectAdds(was, u);
    if s !in Grown(was) {
      NotGrown(was, s);
    }
  }

  // ---- What the counts add up to ----

  ghost function DirectAddsOf(users: seq<NewUser>): int -> int {
    u => DirectAdds(users, u)
  }

  ghost function TeamAddsOf(users: seq<NewUser>): int -> int {
    u => TeamAdds(users, u)
  }

  ghost function AddsOf(n: NewUser): int -> int {
    u => TeamAddsBy(n, u)
  }

  ghost function DirectBy(n: NewUser): int -> int {
    u => if n.upUserid == u != 0 then 1 else 0
  }

  /** The number of new users that have a superior. */
  ghost function Referred(users: seq<NewUser>): nat {
    if users == [] then 0 else Referred(Init(users)) + if Last(users).upUserid != 0 then 1 else 0
  }

  /** The number of superiors all of them have. */
  ghost function Levels(users: seq<NewUser>): nat {
    if users == [] then 0
    else Levels(Init(users)) + if Last(users).upUserid != 0 then 1 + |Last(users).uplist| else 0
  }

  /** Every referred user is one direct addition, and one team addition for each superior. */
  lemma GrowthAddsUp(users: seq<NewUser>)
    ensures SumOver(Grown(users), DirectAddsOf(users)) == Referred(users)
    ensures SumOver(Grown(users), TeamAddsOf(users)) == Levels(users)
  {
    hide *;
    DirectAddsUp(users, Grown(users));
    TeamAddsUp(users, Grown(users));
  }

  lemma {:induction false} DirectAddsUp(users: seq<NewUser>, s: set<int>)
    requires Grown(users) <= s
    ensures SumOver(s, DirectAddsOf(users)) == Referred(users)
  {
    if users == [] {
      SumOfNothing(s, DirectAddsOf(users));
    } else {
      DirectAddsUp(Init(users), s);
      SumOfSums(s, DirectAddsOf(Init(users)), DirectBy(Last(users)), DirectAddsOf(users));
      OneUserAdds(Last(users), s);
    }
  }

  lemma {:induction false} TeamAddsUp(users: seq<NewUser>, s: set<int>)
    requires Grown(users) <= s
    ensures SumOver(s, TeamAddsOf(users)) == Levels(users)
  {
    if users == [] {
      SumOfNothing(s, TeamAddsOf(users));
    } else {
      TeamAddsUp(Init(users), s);
      SumOfSums(s, TeamAddsOf(Init(users)), AddsOf(Last(users)), TeamAddsOf(users));
      OneUserAdds(Last(users), s);
    }
  }

  lemma OneUserAdds(n: NewUser, s: set<int>)
    requires GrownBy(n) <= s
    ensures SumOver(s, DirectBy(n)) == if n.upUserid != 0 then 1 else 0
    ensures SumOver(s, AddsOf(n)) == if n.upUserid != 0 then 1 + |n.uplist| else 0
  {
    if n.upUserid == 0 {
      SumOfNothing(s, DirectBy(n));
      SumOfNothing(s, AddsOf(n));
    } else {
      assert n.upUserid in GrownBy(n);
      SumTakes(s, DirectBy(n), n.upUserid);
      SumOfNothing(s - {n.upUserid}, DirectBy(n));
      forall u | u in n.uplist
        ensures u in s
      {
        assert u in GrownBy(n);
      }
      SumOfOccurrences(s, n.uplist);
      SumOfSums(s, OccurrencesIn(n.uplist), DirectBy(n), AddsOf(n));
    }
  }
}
