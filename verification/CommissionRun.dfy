/** The commission calculation of algorithmlogic.cpp as it runs: maps updated entry by entry,
    one of them while it is being walked. */
module CommissionRun {
  import opened Options
  import SetSums
  import opened BettingCount
  import opened NewUserCount
  import opened ProfitShares

  class AlgorithmLogic {
    var incomeUserMap: map<int, IncomeUser>
    var haveAddNewUserMap: map<int, Growth>

    /** The betting loop: whatever order the bettors come in and whichever branch made an entry,
        the bets are each user's own and its team's. */
    method CountBets(bettors: seq<Bettor>, users: Users)
      requires RatesOnFile(bettors, users)
      modifies this`incomeUserMap
      ensures Counted(incomeUserMap, bettors, users)
    {
      hide Counted, Touched, Entry, BaseRate, SuperiorOf;
      incomeUserMap := map[];
      NoneCounted(users);
      assert bettors[..0] == [];
      for i := 0 to |bettors|
        invariant Counted(incomeUserMap, bettors[..i], users)
      {
        assert bettors[..i + 1] == bettors[..i] + [bettors[i]];
        assert bettors[i] in bettors;
        CountBettor(bettors[i], users, bettors[..i]);
      }
      assert bettors[..|bettors|] == bettors;
    }

    method CountBettor(b: Bettor, users: Users, ghost done: seq<Bettor>)
      requires forall u | u in b.superiorAgent && u in users :: users[u].minrebaterate.Some?
      requires Counted(incomeUserMap, done, users)
      modifies this`incomeUserMap
      ensures Counted(incomeUserMap, done + [b], users)
    {
      hide Touched, Entry;
      BettorJoins(done, users, b);
      if b.userid in incomeUserMap {
        incomeUserMap := incomeUserMap[b.userid := incomeUserMap[b.userid].(selfBetting := b.bettingScore)];
      } else {
        var entry := NO_INCOME.(userid := b.userid, agentid := b.agentid, selfBetting := b.bettingScore);
        if b.userid in users {
          if users[b.userid].superior.Some? {
            entry := entry.(upUserid := users[b.userid].superior.value);
          }
          if users[b.userid].minrebaterate.Some? {
            entry := entry.(guarantee := users[b.userid].minrebaterate.value);
          }
        }
        incomeUserMap := incomeUserMap[b.userid := entry];
      }
      for j := 0 to |b.superiorAgent|
        invariant Counted(incomeUserMap, done + [UpTo(b, j)], users)
      {
        SuperiorCredited(done, users, b, j);
        CreditSuperior(b, b.superiorAgent[j], users, done + [UpTo(b, j)], done + [UpTo(b, j + 1)]);
      }
      assert UpTo(b, |b.superiorAgent|) == b;
    }

    method CreditSuperior(b: Bettor, s: int, users: Users, ghost was: seq<Bettor>, ghost now: seq<Bettor>)
      requires s in users ==> users[s].minrebaterate.Some?
      requires Counted(incomeUserMap, was, users)
      requires Touched(now) == Touched(was) + {s}
      requires forall u | u in Touched(was) && u != s :: Entry(now, users, u) == Entry(was, users, u)
      requires Entry(now, users, s) ==
               if s in Touched(was) then
                 Entry(was, users, s).(teamBetting := TeamBets(was, s) + b.bettingScore)
               else
                 NO_INCOME.(userid := s, agentid := b.agentid, teamBetting := b.bettingScore,
                            upUserid := b.userid, guarantee := BaseRate(users, s))
      modifies this`incomeUserMap
      ensures Counted(incomeUserMap, now, users)
    {
      hide Touched;
      if s in incomeUserMap {
        incomeUserMap := incomeUserMap[s := incomeUserMap[s].(teamBetting := incomeUserMap[s].teamBetting + b.bettingScore)];
      } else {
        var entry := NO_INCOME.(userid := s, agentid := b.agentid, teamBetting := b.bettingScore);
        entry := entry.(upUserid := b.userid);
        if s in users {
          entry := entry.(guarantee := users[s].minrebaterate.value);
        }
        incomeUserMap := incomeUserMap[s := entry];
      }
    }

    /** The rate loop; an entry only looks at itself, so any order will do. */
    method SetRates(proxies: Proxies)
      modifies this`incomeUserMap
      ensures incomeUserMap == Rated(old(incomeUserMap), proxies)
    {
      hide RatedUser;
      var todo := incomeUserMap.Keys;
      while todo != {}
        invariant todo <= incomeUserMap.Keys == old(incomeUserMap).Keys
        invariant forall u | u in incomeUserMap ::
                    incomeUserMap[u] == if u in todo then old(incomeUserMap)[u] else RatedUser(old(incomeUserMap)[u], proxies)
      {
        SetSums.Inhabited(todo);
        var u :| u in todo;
        var rated := RateOne(incomeUserMap[u], proxies);
        incomeUserMap := incomeUserMap[u := rated];
        todo := todo - {u};
      }
      assert incomeUserMap.Keys == Rated(old(incomeUserMap), proxies).Keys;
      assert forall u | u in incomeUserMap :: incomeUserMap[u] == Rated(old(incomeUserMap), proxies)[u];
    }

    method RateOne(user: IncomeUser, proxies: Proxies) returns (rated: IncomeUser)
      ensures rated == RatedUser(user, proxies)
    {
      rated := user;
      var allbetting := user.teamBetting + user.selfBetting;
      if user.agentid in proxies {
        var tiers := proxies[user.agentid];
        for i := 0 to |tiers|
          invariant rated == user
          invariant TierRate(tiers, allbetting, user.guarantee) == TierRate(tiers[i..], allbetting, user.guarantee)
        {
          if tiers[i].minvalidbet * 100 <= allbetting < tiers[i].maxvalidbet * 100 {
            rated := rated.(guarantee := tiers[i].brokerage);
            break;
          }
        }
      }
      rated := rated.(selfProfit := PerTenThousand(rated.selfBetting * rated.guarantee));
    }

    /** The profit loop. The map is walked in ascending order of ids; an entry made on the way is
        visited too when its id lies ahead. */
    method ShareProfits()
      modifies this`incomeUserMap
      ensures Shared(incomeUserMap, old(incomeUserMap))
    {
      hide *;
      ghost var m := incomeUserMap;
      ghost var visited: set<int> := {};
      NothingShared(m);
      assert {} * m.Keys == {};
      var todo := incomeUserMap.Keys;
      while todo != {}
        invariant SharedSoFar(incomeUserMap, m, visited * m.Keys)
        invariant todo !! visited && todo <= incomeUserMap.Keys && visited <= incomeUserMap.Keys
        invariant m.Keys <= visited + todo
        decreases |Reached(m, m.Keys) - visited|
      {
        var u := Least(todo);
        var before := incomeUserMap.Keys;
        NextVisit(incomeUserMap, m, visited, u);
        Visit(u, m, visited * m.Keys);
        todo := todo - {u} + set p | p in incomeUserMap.Keys - before && p > u;
        visited := visited + {u};
      }
      AllVisited(incomeUserMap, visited, m);
    }

    /** The profit loop's body for one entry; looking up a missing superior makes its entry. */
    method Visit(u: int, ghost m: map<int, IncomeUser>, ghost done: set<int>)
      requires u in incomeUserMap && SharedSoFar(incomeUserMap, m, done) && done <= m.Keys && u !in done
      modifies this`incomeUserMap
      ensures SharedSoFar(incomeUserMap, m, if u in m then done + {u} else done)
      ensures incomeUserMap.Keys >= old(incomeUserMap).Keys
    {
      hide TeamShare, DifferenceOn, After, Commission;
      AfterKeeps(m, done);
      var allbetting := incomeUserMap[u].teamBetting + incomeUserMap[u].selfBetting;
      var p := incomeUserMap[u].upUserid;
      if allbetting == 0 || p == 0 {
        SkippedStep(m, done, u, incomeUserMap);
        return;
      }
      if p !in incomeUserMap {
        incomeUserMap := incomeUserMap[p := NO_INCOME];
        Newcomer(m, done, p);
      }
      if incomeUserMap[p].guarantee < incomeUserMap[u].guarantee {
        SkippedStep(m, done, u, incomeUserMap);
        return;
      }
      Pay(u, p, allbetting, m, done);
    }

    /** The commission for a child whose superior's rate is no lower. */
    method Pay(u: int, p: int, allbetting: int, ghost m: map<int, IncomeUser>, ghost done: set<int>)
      requires u in m && u !in done && done <= m.Keys && Pays(m, u) && p == m[u].upUserid && allbetting == Total(m[u])
      requires incomeUserMap.Keys == Reached(m, done) + {p}
      requires forall k | k in incomeUserMap :: incomeUserMap[k] == After(m, done, k)
      modifies this`incomeUserMap
      ensures SharedSoFar(incomeUserMap, m, done + {u})
      ensures incomeUserMap.Keys >= old(incomeUserMap).Keys
    {
      hide TeamShare, DifferenceOn, After, SharedSoFar;
      AfterKeeps(m, done);
      var commission := DifferenceOn(allbetting, incomeUserMap[p].guarantee, incomeUserMap[u].guarantee);
      PaidStep(m, done, u, incomeUserMap, commission);
      incomeUserMap := incomeUserMap[p := incomeUserMap[p].(teamProfit := incomeUserMap[p].teamProfit + commission)];
      incomeUserMap := incomeUserMap[u := incomeUserMap[u].(contribution := commission)];
    }

    /** Joins the day's registrations to the incomes. */
    method AddGrowth()
      modifies this`incomeUserMap
      ensures WithGrowth(incomeUserMap, old(incomeUserMap), haveAddNewUserMap)
    {
      var todo := haveAddNewUserMap.Keys;
      while todo != {}
        invariant todo <= haveAddNewUserMap.Keys
        invariant incomeUserMap.Keys == old(incomeUserMap).Keys + (haveAddNewUserMap.Keys - todo)
        invariant forall u | u in incomeUserMap ::
                    incomeUserMap[u] == if u in haveAddNewUserMap && u !in todo then
                                          Joined(old(incomeUserMap), haveAddNewUserMap[u], u)
                                        else
                                          old(incomeUserMap)[u]
      {
        SetSums.Inhabited(todo);
        var u :| u in todo;
        var grown := haveAddNewUserMap[u];
        if u in incomeUserMap {
          var e := incomeUserMap[u];
          incomeUserMap := incomeUserMap[u := e.(newUserZhi := grown.directlyAdd, newUserTuan := grown.teamAdd)];
        } else {
          var e := NO_INCOME.(userid := u, agentid := grown.agentid);
          incomeUserMap := incomeUserMap[u := e.(newUserTuan := grown.teamAdd, newUserZhi := grown.directlyAdd)];
        }
        todo := todo - {u};
      }
    }

    /** The registrations counted, in any order and through either branch. */
    method HaveAddNewRegisteredUser(users: seq<NewUser>)
      modifies this`haveAddNewUserMap
      ensures GrowthCounted(haveAddNewUserMap, users)
    {
      hide Grown, GrowthOf;
      haveAddNewUserMap := map[];
      NobodyGrown();
      for i := 0 to |users|
        invariant GrowthCounted(haveAddNewUserMap, users[..i])
      {
        assert users[..i + 1] == users[..i] + [users[i]];
        if users[i].upUserid != 0 {
          CountNewUser(users[i], users[..i]);
        } else {
          NoGrowth(users[..i], users[i]);
        }
      }
      assert users[..|users|] == users;
    }

    method CountNewUser(n: NewUser, ghost done: seq<NewUser>)
      requires n.upUserid != 0 && GrowthCounted(haveAddNewUserMap, done)
      modifies this`haveAddNewUserMap
      ensures GrowthCounted(haveAddNewUserMap, done + [n])
    {
      hide Grown;
      var p := n.upUserid;
      DirectGrowth(done, n);
      if p in haveAddNewUserMap {
        var g := haveAddNewUserMap[p];
        haveAddNewUserMap := haveAddNewUserMap[p := g.(directlyAdd := g.directlyAdd + 1, teamAdd := g.teamAdd + 1)];
      } else {
        haveAddNewUserMap := haveAddNewUserMap[p := Growth(p, n.agentid, 1, 1)];
      }
      for j := 0 to |n.uplist|
        invariant GrowthCounted(haveAddNewUserMap, done + [ListUpTo(n, j)])
      {
        ListedGrowth(done, n, j);
        CountListed(n.uplist[j], n.agentid, done + [ListUpTo(n, j)], done + [ListUpTo(n, j + 1)]);
      }
      assert ListUpTo(n, |n.uplist|) == n;
    }

    method CountListed(s: int, agentid: int, ghost was: seq<NewUser>, ghost now: seq<NewUser>)
      requires GrowthCounted(haveAddNewUserMap, was) && Grown(now) == Grown(was) + {s}
      requires forall u | u in Grown(was) && u != s :: GrowthOf(now, u) == GrowthOf(was, u)
      requires GrowthOf(now, s) ==
               if s in Grown(was) then
                 GrowthOf(was, s).(teamAdd := TeamAdds(was, s) + 1)
               else
                 Growth(s, agentid, 0, 1)
      modifies this`haveAddNewUserMap
      ensures GrowthCounted(haveAddNewUserMap, now)
    {
      hide Grown;
      if s in haveAddNewUserMap {
        var g := haveAddNewUserMap[s];
        haveAddNewUserMap := haveAddNewUserMap[s := g.(teamAdd := g.teamAdd + 1)];
      } else {
        haveAddNewUserMap := haveAddNewUserMap[s := Growth(s, agentid, 0, 1)];
      }
    }

    /** The whole calculation: bets counted, rates set, commission shared, registrations joined. */
    method CalculatAllBenefitsUser(bettors: seq<Bettor>, users: Users, proxies: Proxies)
      returns (ghost counted: map<int, IncomeUser>, ghost shared: map<int, IncomeUser>)
      requires RatesOnFile(bettors, users)
      modifies this`incomeUserMap
      ensures Counted(counted, bettors, users)
      ensures Shared(shared, Rated(counted, proxies))
      ensures WithGrowth(incomeUserMap, shared, haveAddNewUserMap)
    {
      hide *;
      CountBets(bettors, users);
      counted := incomeUserMap;
      SetRates(proxies);
      ShareProfits();
      shared := incomeUserMap;
      AddGrowth();
    }
  }

  method Least(s: set<int>) returns (x: int)
    requires s != {}
    ensures x in s && forall y | y in s :: x <= y
  {
    SetSums.Inhabited(s);
    x :| x in s;
    var rest := s - {x};
    while rest != {}
      invariant x in s && forall y | y in s :: y in rest || x <= y
    {
      SetSums.Inhabited(rest);
      var y :| y in rest;
      rest := rest - {y};
      if y < x {
        x := y;
      }
    }
  }

  lemma Newcomer(m: map<int, IncomeUser>, done: set<int>, p: int)
    requires p !in Reached(m, done)
    ensures After(m, done, p) == NO_INCOME && p !in m
  {
    var kids := SetSums.Fiber(done, UpIn(m), p);
    forall c | c in kids
      ensures CommissionIn(m)(c) == 0
    {
    }
    SetSums.SumOfNothing(kids, CommissionIn(m));
  }

  /** What the loop reads of an entry is what it was at the start. */
  lemma AfterKeeps(m: map<int, IncomeUser>, done: set<int>)
    ensures forall k :: After(m, done, k).guarantee == RateIn(m, k)
    ensures forall k | k in m :: Total(After(m, done, k)) == Total(m[k]) && After(m, done, k).upUserid == m[k].upUserid
    ensures forall k | k !in m :: Total(After(m, done, k)) == 0
  {
    hide TeamShare;
  }

  /** One more visited child: its superior's team profit and its own contribution. */
  lemma AfterOneMore(m: map<int, IncomeUser>, done: set<int>, u: int)
    requires u in m && u !in done && done <= m.Keys
    ensures forall k :: After(m, done + {u}, k) ==
              After(m, done, k).(
                teamProfit := After(m, done, k).teamProfit + if k == m[u].upUserid then Commission(m, u) else 0,
                contribution := if k == u && Pays(m, u) then Commission(m, u) else After(m, done, k).contribution)
  {
    hide TeamShare, Commission;
    OneMoreShares(m, done, u);
  }

  /** A visit that pays nothing. */
  lemma SkippedStep(m: map<int, IncomeUser>, done: set<int>, u: int, income: map<int, IncomeUser>)
    requires u !in done && done <= m.Keys && !Pays(m, u)
    requires income.Keys == Reached(m, done) + if u in m && Looks(m[u]) then {m[u].upUserid} else {}
    requires forall k | k in income :: income[k] == After(m, done, k)
    ensures SharedSoFar(income, m, if u in m then done + {u} else done)
  {
    hide After, TeamShare;
    if u in m {
      OneMoreShares(m, done, u);
      AfterOneMore(m, done, u);
    }
  }

  /** The two updates for a child that pays. */
  lemma PaidStep(m: map<int, IncomeUser>, done: set<int>, u: int, income: map<int, IncomeUser>, commission: int)
    requires u in m && u !in done && done <= m.Keys && Pays(m, u) && commission == Commission(m, u)
    requires income.Keys == Reached(m, done) + {m[u].upUserid} && forall k | k in income :: income[k] == After(m, done, k)
    ensures var p := m[u].upUserid;
            var first := income[p := income[p].(teamProfit := income[p].teamProfit + commission)];
            SharedSoFar(first[u := first[u].(contribution := commission)], m, done + {u})
  {
    hide After, TeamShare, Commission;
    OneMoreShares(m, done, u);
    AfterOneMore(m, done, u);
  }

  lemma NextVisit(income: map<int, IncomeUser>, m: map<int, IncomeUser>, visited: set<int>, u: int)
    requires SharedSoFar(income, m, visited * m.Keys) && u in income && u !in visited
    ensures (visited + {u}) * m.Keys == if u in m then visited * m.Keys + {u} else visited * m.Keys
    ensures |Reached(m, m.Keys) - (visited + {u})| < |Reached(m, m.Keys) - visited|
  {
    hide After;
    ReachedGrows(m, visited * m.Keys);
    FewerLeft(Reached(m, m.Keys), visited, u);
  }

  lemma ReachedGrows(m: map<int, IncomeUser>, done: set<int>)
    requires done <= m.Keys
    ensures Reached(m, done) <= Reached(m, m.Keys)
  {
  }

  lemma FewerLeft(all: set<int>, visited: set<int>, u: int)
    requires u in all && u !in visited
    ensures |all - (visited + {u})| < |all - visited|
  {
    assert all - (visited + {u}) == (all - visited) - {u};
  }

  lemma AllVisited(income: map<int, IncomeUser>, visited: set<int>, m: map<int, IncomeUser>)
    requires SharedSoFar(income, m, visited * m.Keys) && m.Keys <= visited
    ensures Shared(income, m)
  {
    assert visited * m.Keys == m.Keys;
  }

  lemma NobodyGrown()
    ensures GrowthCounted(map[], [])
  {
  }

  ghost function Joined(income: map<int, IncomeUser>, grown: Growth, u: int): IncomeUser {
    var e := if u in income then income[u] else NO_INCOME.(userid := u, agentid := grown.agentid);
    e.(newUserZhi := grown.directlyAdd, newUserTuan := grown.teamAdd)
  }

  ghost predicate WithGrowth(after: map<int, IncomeUser>, income: map<int, IncomeUser>, growth: map<int, Growth>) {
    && after.Keys == income.Keys + growth.Keys
    && forall u | u in after :: after[u] == if u in growth then Joined(income, growth[u], u) else income[u]
  }
}
