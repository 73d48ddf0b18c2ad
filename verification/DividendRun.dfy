/** The weekly dividend of algorithmlogic.cpp as it runs, step by step over its maps. */
module DividendRun {
  import opened BettingCount
  import opened DividendShares
  import opened Division
  import opened Lists
  import opened SetSums

  /** user.bettingScore holds the week's valid bets. */
  datatype WeekBettor = WeekBettor(user: Bettor, totalwinlose: int)

  const NO_RESULT := WeekUser(0, 0, 0, 0, [], 0, 0, 0, 0, 0.0, 0, 0)

  // ---- What the first loops should find ----

  ghost function UsersOf(week: seq<WeekBettor>): (s: seq<Bettor>)
    ensures |s| == |week|
  {
    seq(|week|, i requires 0 <= i < |week| => week[i].user)
  }

  ghost function WinLose(week: seq<WeekBettor>, agent: int): int {
    if week == [] then 0
    else WinLose(Init(week), agent) + if Last(week).user.agentid == agent then Last(week).totalwinlose else 0
  }

  ghost function ValidBets(week: seq<WeekBettor>, agent: int): int {
    if week == [] then 0
    else ValidBets(Init(week), agent) + if Last(week).user.agentid == agent then Last(week).user.bettingScore else 0
  }

  /** The agents' profits are what their players lost. */
  ghost predicate Balanced(overall: Overall, before: Overall, week: seq<WeekBettor>) {
    && overall.Keys == before.Keys
    && forall a | a in overall ::
         overall[a] == before[a].(allProfit := before[a].allProfit - WinLose(week, a),
                                  allBeting := before[a].allBeting + ValidBets(week, a))
  }

  ghost function FromEntry(e: IncomeUser): WeekUser {
    NO_RESULT.(selfBetting := e.selfBetting, teamBetting := e.teamBetting, agentid := e.agentid, userid := e.userid)
  }

  ghost predicate WeekCounted(results: Results, bettors: seq<Bettor>) {
    && results.Keys == Touched(bettors)
    && forall u | u in results :: results[u] == FromEntry(Entry(bettors, map[], u))
  }

  function ListOf(below: map<int, seq<int>>, u: int): seq<int> {
    if u in below then below[u] else []
  }

  ghost predicate BelowListed(results: Results, before: Results, below: map<int, seq<int>>) {
    && results.Keys == before.Keys
    && forall u | u in results :: results[u] == before[u].(belowUser := before[u].belowUser + ListOf(below, before[u].userid))
  }

  // ---- What the share loops should find ----

  ghost predicate AllLeveled(results: Results, before: Results, overall: Overall, conditions: Conditions) {
    && results.Keys == before.Keys
    && forall u | u in results :: results[u] == Leveled(before[u], overall, conditions)
  }

  ghost predicate AllNetted(results: Results, before: Results) {
    && results.Keys == before.Keys
    && forall u | u in results :: results[u] == Netted(before, before[u])
  }

  ghost predicate AllClipped(results: Results, before: Results, overall: Overall) {
    && results.Keys == before.Keys
    && forall u | u in results :: results[u] == Clipped(before[u], overall)
  }

  ghost function ClippedSharesIn(m: Results, overall: Overall): int -> int {
    u => if u in m then Clipped(m[u], overall).selfShares else 0
  }

  /** The clipped shares of some users, by agent. */
  ghost function CountedFor(m: Results, overall: Overall, users: set<int>, agent: int): int {
    SumOver(Fiber(users, AgentIn(m), agent), ClippedSharesIn(m, overall))
  }

  ghost predicate SharesCounted(overall: Overall, before: Overall, m: Results, users: set<int>) {
    && overall.Keys == before.Keys
    && forall a | a in overall ::
         overall[a] == before[a].(allShares := before[a].allShares + CountedFor(m, before, users, a))
  }

  ghost predicate AllPriced(overall: Overall, before: Overall) {
    && overall.Keys == before.Keys
    && forall a | a in overall :: overall[a] == Priced(before[a])
  }

  ghost predicate AllPaid(results: Results, before: Results, overall: Overall) {
    && results.Keys == before.Keys
    && forall u | u in results :: results[u] == PaidUser(before[u], overall)
  }

  // ---- Steps ----

  lemma UsersGrow(week: seq<WeekBettor>, i: nat)
    requires i < |week|
    ensures UsersOf(week[..i + 1]) == UsersOf(week[..i]) + [week[i].user]
  {
  }

  lemma OneMoreBalance(overall: Overall, before: Overall, week: seq<WeekBettor>, i: nat)
    requires i < |week| && Balanced(overall, before, week[..i])
    ensures forall a :: WinLose(week[..i + 1], a)
                     == WinLose(week[..i], a) + if week[i].user.agentid == a then week[i].totalwinlose else 0
    ensures forall a :: ValidBets(week[..i + 1], a)
                     == ValidBets(week[..i], a) + if week[i].user.agentid == a then week[i].user.bettingScore else 0
  {
    assert Init(week[..i + 1]) == week[..i];
  }

  lemma OneMoreCounted(m: Results, overall: Overall, done: set<int>, u: int)
    requires u in m && u !in done
    ensures forall a :: CountedFor(m, overall, done + {u}, a)
                     == CountedFor(m, overall, done, a) + if a == m[u].agentid then Clipped(m[u], overall).selfShares else 0
  {
    forall a
      ensures CountedFor(m, overall, done + {u}, a)
           == CountedFor(m, overall, done, a) + if a == m[u].agentid then Clipped(m[u], overall).selfShares else 0
    {
      if a == m[u].agentid {
        assert Fiber(done + {u}, AgentIn(m), a) == Fiber(done, AgentIn(m), a) + {u};
        SumGrows(Fiber(done, AgentIn(m), a), ClippedSharesIn(m, overall), u);
      } else {
        assert Fiber(done + {u}, AgentIn(m), a) == Fiber(done, AgentIn(m), a);
      }
    }
  }

  lemma NothingCounted(m: Results, overall: Overall)
    ensures SharesCounted(overall, overall, m, {})
  {
    forall a | a in overall
      ensures CountedFor(m, overall, {}, a) == 0
    {
      assert Fiber({}, AgentIn(m), a) == {};
    }
  }

  class AlgorithmLogic {
    var userResultInfo: Results
    var overallCondition: Overall
    var weekConditionMap: Conditions

    /** The week's bets, by user, team and agent. */
    method CountWeek(week: seq<WeekBettor>)
      modifies this`userResultInfo, this`overallCondition
      ensures WeekCounted(userResultInfo, UsersOf(week))
      ensures Balanced(overallCondition, old(overallCondition), week)
    {
      hide Entry, Touched;
      userResultInfo := map[];
      NobodyCounted();
      for i := 0 to |week|
        invariant WeekCounted(userResultInfo, UsersOf(week[..i]))
        invariant Balanced(overallCondition, old(overallCondition), week[..i])
      {
        OneMoreBalance(overallCondition, old(overallCondition), week, i);
        UsersGrow(week, i);
        var a := week[i].user.agentid;
        if a in overallCondition {
          var info := overallCondition[a];
          overallCondition := overallCondition[a := info.(allProfit := info.allProfit - week[i].totalwinlose,
                                                          allBeting := info.allBeting + week[i].user.bettingScore)];
        }
        CountUser(week[i].user, UsersOf(week[..i]));
      }
      assert week[..|week|] == week;
    }

    method CountUser(b: Bettor, ghost done: seq<Bettor>)
      requires WeekCounted(userResultInfo, done)
      modifies this`userResultInfo
      ensures WeekCounted(userResultInfo, done + [b])
    {
      hide Entry, Touched;
      BettorJoins(done, map[], b);
      if b.userid in userResultInfo {
        userResultInfo := userResultInfo[b.userid := userResultInfo[b.userid].(selfBetting := b.bettingScore)];
      } else {
        userResultInfo := userResultInfo[b.userid := NO_RESULT.(userid := b.userid, agentid := b.agentid,
                                                                selfBetting := b.bettingScore)];
      }
      for j := 0 to |b.superiorAgent|
        invariant WeekCounted(userResultInfo, done + [UpTo(b, j)])
      {
        SuperiorCredited(done, map[], b, j);
        CreditTeam(b, b.superiorAgent[j], done + [UpTo(b, j)], done + [UpTo(b, j + 1)]);
      }
      assert UpTo(b, |b.superiorAgent|) == b;
    }

    method CreditTeam(b: Bettor, s: int, ghost was: seq<Bettor>, ghost now: seq<Bettor>)
      requires WeekCounted(userResultInfo, was)
      requires Touched(now) == Touched(was) + {s}
      requires forall u | u in Touched(was) && u != s :: Entry(now, map[], u) == Entry(was, map[], u)
      requires Entry(now, map[], s) ==
               if s in Touched(was) then
                 Entry(was, map[], s).(teamBetting := TeamBets(was, s) + b.bettingScore)
               else
                 NO_INCOME.(userid := s, agentid := b.agentid, teamBetting := b.bettingScore,
                            upUserid := b.userid, guarantee := BaseRate(map[], s))
      modifies this`userResultInfo
      ensures WeekCounted(userResultInfo, now)
    {
      hide Touched;
      if s in userResultInfo {
        var e := userResultInfo[s];
        userResultInfo := userResultInfo[s := e.(teamBetting := e.teamBetting + b.bettingScore)];
      } else {
        userResultInfo := userResultInfo[s := NO_RESULT.(userid := s, agentid := b.agentid, teamBetting := b.bettingScore)];
      }
    }

    /** below answers the query for the users whose superior is a given one. */
    method ListBelow(below: map<int, seq<int>>)
      modifies this`userResultInfo
      ensures BelowListed(userResultInfo, old(userResultInfo), below)
    {
      ghost var m := userResultInfo;
      var todo := userResultInfo.Keys;
      while todo != {}
        invariant todo <= userResultInfo.Keys == m.Keys
        invariant forall u | u in userResultInfo ::
                    userResultInfo[u] == if u in todo then m[u]
                                         else m[u].(belowUser := m[u].belowUser + ListOf(below, m[u].userid))
      {
        Inhabited(todo);
        var u :| u in todo;
        var e := userResultInfo[u];
        userResultInfo := userResultInfo[u := e.(belowUser := e.belowUser + ListOf(below, e.userid))];
        todo := todo - {u};
      }
    }

    method SetLevels()
      modifies this`userResultInfo
      ensures AllLeveled(userResultInfo, old(userResultInfo), overallCondition, weekConditionMap)
    {
      hide Leveled;
      ghost var m := userResultInfo;
      var todo := userResultInfo.Keys;
      while todo != {}
        invariant todo <= userResultInfo.Keys == m.Keys
        invariant forall u | u in userResultInfo ::
                    userResultInfo[u] == if u in todo then m[u] else Leveled(m[u], overallCondition, weekConditionMap)
      {
        Inhabited(todo);
        var u :| u in todo;
        var e := LevelUser(userResultInfo[u]);
        userResultInfo := userResultInfo[u := e];
        todo := todo - {u};
      }
    }

    method LevelUser(user: WeekUser) returns (e: WeekUser)
      ensures e == Leveled(user, overallCondition, weekConditionMap)
    {
      e := user;
      var allbetting := user.teamBetting + user.selfBetting;
      if user.agentid !in overallCondition {
        return;
      }
      if allbetting < overallCondition[user.agentid].minperformance || |user.belowUser| <= 1 {
        return;
      }
      if user.agentid !in weekConditionMap {
        return;
      }
      var levels := weekConditionMap[user.agentid];
      for i := 0 to |levels|
        invariant e == WithLevel(user, LevelOf(levels, i, allbetting))
      {
        if levels[i].minPerformance > allbetting || (allbetting >= levels[i].maxPerformance && i != |levels| - 1) {
          continue;
        } else {
          var numPerW := levels[i].share;
          e := e.(level := levels[i].level, teamShares := Quotient(numPerW * allbetting, 10000));
          e := e.(selfShares := e.teamShares);
        }
      }
    }

    method NetShares()
      modifies this`userResultInfo
      ensures AllNetted(userResultInfo, old(userResultInfo))
    {
      ghost var m := userResultInfo;
      var todo := userResultInfo.Keys;
      while todo != {}
        invariant todo <= userResultInfo.Keys == m.Keys
        invariant forall u | u in userResultInfo :: userResultInfo[u] == if u in todo then m[u] else Netted(m, m[u])
      {
        Inhabited(todo);
        var u :| u in todo;
        NetUser(u, m);
        todo := todo - {u};
      }
    }

    method NetUser(u: int, ghost m: Results)
      requires u in m && userResultInfo.Keys == m.Keys && userResultInfo[u] == m[u]
      requires forall v | v in m :: userResultInfo[v].teamShares == m[v].teamShares
      modifies this`userResultInfo
      ensures userResultInfo == old(userResultInfo)[u := Netted(m, m[u])]
    {
      var list := userResultInfo[u].belowUser;
      for i := 0 to |list|
        invariant userResultInfo.Keys == m.Keys
        invariant forall v | v in m && v != u :: userResultInfo[v] == old(userResultInfo)[v]
        invariant userResultInfo[u] == m[u].(selfShares := m[u].selfShares - BelowShares(m, list[..i]))
      {
        OneMoreBelow(m, list, i);
        if list[i] in userResultInfo {
          var e := userResultInfo[u];
          userResultInfo := userResultInfo[u := e.(selfShares := e.selfShares - userResultInfo[list[i]].teamShares)];
        }
      }
      assert list[..|list|] == list;
      assert forall v | v in m :: userResultInfo[v] == old(userResultInfo)[u := Netted(m, m[u])][v];
    }

    method CountShares()
      modifies this`userResultInfo, this`overallCondition
      ensures AllClipped(userResultInfo, old(userResultInfo), old(overallCondition))
      ensures SharesCounted(overallCondition, old(overallCondition), old(userResultInfo), old(userResultInfo).Keys)
    {
      ghost var m, before := userResultInfo, overallCondition;
      var todo := userResultInfo.Keys;
      NothingCounted(m, before);
      assert m.Keys - todo == {};
      while todo != {}
        invariant todo <= userResultInfo.Keys == m.Keys
        invariant forall u | u in userResultInfo :: userResultInfo[u] == if u in todo then m[u] else Clipped(m[u], before)
        invariant SharesCounted(overallCondition, before, m, m.Keys - todo)
      {
        Inhabited(todo);
        var u :| u in todo;
        CountUserShares(u, before, m, m.Keys - todo);
        assert m.Keys - (todo - {u}) == m.Keys - todo + {u};
        todo := todo - {u};
      }
      assert m.Keys - todo == m.Keys;
    }

    method CountUserShares(u: int, ghost before: Overall, ghost m: Results, ghost done: set<int>)
      requires u in m && u !in done && u in userResultInfo && userResultInfo[u] == m[u]
      requires SharesCounted(overallCondition, before, m, done)
      modifies this`userResultInfo, this`overallCondition
      ensures userResultInfo == old(userResultInfo)[u := Clipped(m[u], before)]
      ensures SharesCounted(overallCondition, before, m, done + {u})
    {
      hide CountedFor;
      OneMoreCounted(m, before, done, u);
      var e := userResultInfo[u];
      var allbetting := e.teamBetting + e.selfBetting;
      var condition := 10000000000;
      if e.agentid in overallCondition {
        condition := overallCondition[e.agentid].minperformance;
      }
      if |e.belowUser| <= 1 || allbetting < condition || e.selfShares < 0 {
        e := e.(selfShares := 0);
      }
      userResultInfo := userResultInfo[u := e];
      if e.agentid in overallCondition {
        var info := overallCondition[e.agentid];
        overallCondition := overallCondition[e.agentid := info.(allShares := info.allShares + e.selfShares)];
      }
    }

    method PriceShares()
      modifies this`overallCondition
      ensures AllPriced(overallCondition, old(overallCondition))
    {
      hide Priced;
      ghost var before := overallCondition;
      var todo := overallCondition.Keys;
      while todo != {}
        invariant todo <= overallCondition.Keys == before.Keys
        invariant forall a | a in overallCondition ::
                    overallCondition[a] == if a in todo then before[a] else Priced(before[a])
      {
        Inhabited(todo);
        var a :| a in todo;
        var info := PriceAgent(overallCondition[a]);
        overallCondition := overallCondition[a := info];
        todo := todo - {a};
      }
    }

    method PriceAgent(con: WeekInformation) returns (info: WeekInformation)
      ensures info == Priced(con)
    {
      info := con.(allDividendsProfit := Truncated(con.allProfit as real * con.dividendScale / 100.0));
      if info.allShares > 0 {
        info := info.(moneyPerShare := info.allDividendsProfit as real / info.allShares as real);
        var quchu := Truncated(info.moneyPerShare * 100.0);
        info := info.(moneyPerShare := quchu as real / 100.0);
      }
    }

    method PayShares()
      modifies this`userResultInfo
      ensures AllPaid(userResultInfo, old(userResultInfo), overallCondition)
    {
      ghost var m := userResultInfo;
      var todo := userResultInfo.Keys;
      while todo != {}
        invariant todo <= userResultInfo.Keys == m.Keys
        invariant forall u | u in userResultInfo ::
                    userResultInfo[u] == if u in todo then m[u] else PaidUser(m[u], overallCondition)
      {
        Inhabited(todo);
        var u :| u in todo;
        var e := PayUser(userResultInfo[u]);
        userResultInfo := userResultInfo[u := e];
        todo := todo - {u};
      }
    }

    method PayUser(user: WeekUser) returns (e: WeekUser)
      ensures e == PaidUser(user, overallCondition)
    {
      e := user;
      var allbetting := e.teamBetting + e.selfBetting;
      var condition := 10000000000;
      if e.agentid in overallCondition {
        condition := overallCondition[e.agentid].minperformance;
      }
      if |e.belowUser| <= 1 || allbetting < condition || e.selfShares < 0 {
        e := e.(selfShares := 0);
        return;
      }
      if e.agentid in overallCondition {
        var info := overallCondition[e.agentid];
        e := e.(moneyPerShare := info.moneyPerShare);
        e := e.(userProfit := Truncated(e.moneyPerShare * e.selfShares as real), lastAllBetting := info.allBeting,
                allDividends := info.allDividendsProfit);
      }
    }

    /** The whole week. The agents come as they are read, with no shares counted and no price set. */
    method WeekCalculate(week: seq<WeekBettor>, below: map<int, seq<int>>)
      requires forall a | a in overallCondition :: overallCondition[a].allShares == 0 && overallCondition[a].moneyPerShare == 0.0
      modifies this`userResultInfo, this`overallCondition
      ensures userResultInfo.Keys == Touched(UsersOf(week))
      ensures overallCondition.Keys == old(overallCondition).Keys
      ensures forall a | a in overallCondition :: PaidWithinPool(userResultInfo, overallCondition, a)
    {
      hide *;
      ghost var start := overallCondition;
      CountWeek(week);
      ghost var counted, balanced := userResultInfo, overallCondition;
      ListBelow(below);
      ghost var listed := userResultInfo;
      SetLevels();
      ghost var leveled := userResultInfo;
      NetShares();
      ghost var netted := userResultInfo;
      UnpaidSoFar(netted, leveled, listed, counted, UsersOf(week), below, overallCondition, weekConditionMap);
      CountShares();
      ghost var clipped, counts := userResultInfo, overallCondition;
      PriceShares();
      PayShares();
      StartsEmpty(balanced, start, week);
      SameKeys(userResultInfo, clipped, netted, balanced, counts, overallCondition);
      forall a | a in overallCondition
        ensures PaidWithinPool(userResultInfo, overallCondition, a)
      {
        PayoutWithinPool(userResultInfo, clipped, netted, balanced, counts, overallCondition, a);
      }
    }
  }

  // ---- The payout ----

  ghost function ProfitIn(m: Results): int -> int {
    u => if u in m then m[u].userProfit else 0
  }

  /** What an agent's users are paid together stays within the agent's pool and has its sign; of
      the pool less than one unit a user and a hundredth a share is kept back. */
  ghost predicate PaidWithinPool(m: Results, overall: Overall, a: int)
    requires a in overall
  {
    var users := Fiber(m.Keys, AgentIn(m), a);
    var paid, pool, shares := SumOver(users, ProfitIn(m)), overall[a].allDividendsProfit, overall[a].allShares;
    && Abs(paid) <= Abs(pool)
    && (pool >= 0 ==> paid >= 0) && (pool <= 0 ==> paid <= 0)
    && (shares > 0 ==> 100 * (Abs(pool) - Abs(paid)) < 100 * |users| + shares)
  }

  ghost predicate NobodyPaid(m: Results) {
    forall u | u in m :: m[u].userProfit == 0
  }

  lemma UnpaidSoFar(netted: Results, leveled: Results, listed: Results, counted: Results, bettors: seq<Bettor>,
                    below: map<int, seq<int>>, overall: Overall, conditions: Conditions)
    requires WeekCounted(counted, bettors) && BelowListed(listed, counted, below)
    requires AllLeveled(leveled, listed, overall, conditions) && AllNetted(netted, leveled)
    ensures NobodyPaid(netted) && netted.Keys == Touched(bettors)
  {
    hide Entry, LevelOf, BelowShares, Touched;
    forall u | u in netted
      ensures netted[u].userProfit == 0
    {
      assert listed[u].userProfit == counted[u].userProfit == 0;
      assert leveled[u].userProfit == 0;
    }
  }

  ghost predicate Unpriced(overall: Overall) {
    forall a | a in overall :: overall[a].allShares == 0 && overall[a].moneyPerShare == 0.0
  }

  lemma StartsEmpty(balanced: Overall, start: Overall, week: seq<WeekBettor>)
    requires Balanced(balanced, start, week)
    requires forall a | a in start :: start[a].allShares == 0 && start[a].moneyPerShare == 0.0
    ensures Unpriced(balanced) && balanced.Keys == start.Keys
  {
  }

  lemma SameKeys(paid: Results, clipped: Results, netted: Results, before: Overall, counts: Overall, overall: Overall)
    requires AllClipped(clipped, netted, before) && SharesCounted(counts, before, netted, netted.Keys)
    requires AllPriced(overall, counts) && AllPaid(paid, clipped, overall)
    ensures paid.Keys == netted.Keys && overall.Keys == before.Keys
  {
  }

  lemma PriceIs(pool: int, shares: int)
    requires shares > 0
    ensures Truncated(pool as real / shares as real * 100.0) == Quotient(100 * pool, shares)
  {
    TruncatedQuotient(100 * pool, shares);
    RealQuotient(pool as real, shares as real);
  }

  lemma RealQuotient(x: real, y: real)
    requires y != 0.0
    ensures x / y * 100.0 == 100.0 * x / y
  {
  }

  lemma PayIs(price: int, share: int)
    ensures PayAtPrice(price as real / 100.0, share) == PayFor(price, share)
  {
    TruncatedQuotient(price * share, 100);
    assert price as real * share as real == (price * share) as real;
    assert price as real / 100.0 * share as real == (price * share) as real / 100.0;
  }

  /** One user's way from net shares to pay: counted and paid under the same test. */
  lemma PayFromShares(e: WeekUser, before: Overall, overall: Overall)
    requires e.agentid in before && e.agentid in overall && e.userProfit == 0
    requires overall[e.agentid].minperformance == before[e.agentid].minperformance
    ensures var share := Clipped(e, before).selfShares;
            && share >= 0
            && PaidUser(Clipped(e, before), overall).userProfit == PayAtPrice(overall[e.agentid].moneyPerShare, share)
  {
  }

  lemma PayoutWithinPool(paid: Results, clipped: Results, netted: Results, before: Overall, counts: Overall,
                         overall: Overall, a: int)
    requires AllClipped(clipped, netted, before) && SharesCounted(counts, before, netted, netted.Keys)
    requires AllPriced(overall, counts) && AllPaid(paid, clipped, overall)
    requires NobodyPaid(netted) && Unpriced(before) && a in before && a in overall
    ensures PaidWithinPool(paid, overall, a)
  {
    hide AllClipped, SharesCounted, AllPriced, AllPaid, Unpriced, NobodyPaid, PayFor, Quotient, ClippedSharesIn;
    var users, share := Fiber(netted.Keys, AgentIn(netted), a), ClippedSharesIn(netted, before);
    var pool, shares := overall[a].allDividendsProfit, overall[a].allShares;
    forall u | u in users
      ensures u in paid && share(u) >= 0
      ensures ProfitIn(paid)(u) == if shares > 0 then PayFor(Quotient(100 * pool, shares), share(u)) else 0
    {
      UserPaid(paid, clipped, netted, before, counts, overall, a, u);
    }
    assert users == Fiber(paid.Keys, AgentIn(paid), a) by {
      SameAgents(paid, clipped, netted, before, overall);
    }
    AgentPriced(before, counts, overall, netted, a);
    assert shares == SumOver(users, share);
    hide *;
    if shares > 0 {
      PoolShared(users, share, ProfitIn(paid), pool, shares);
    } else {
      SumOfNothing(users, ProfitIn(paid));
    }
    WithinPool(paid, overall, a, users);
  }

  lemma WithinPool(m: Results, overall: Overall, a: int, users: set<int>)
    requires a in overall && users == Fiber(m.Keys, AgentIn(m), a)
    requires var paid, pool, shares := SumOver(users, ProfitIn(m)), overall[a].allDividendsProfit, overall[a].allShares;
             if shares > 0 then
               && Abs(paid) <= Abs(pool)
               && (pool >= 0 ==> paid >= 0) && (pool <= 0 ==> paid <= 0)
               && 100 * (Abs(pool) - Abs(paid)) < 100 * |users| + shares
             else
               paid == 0
    ensures PaidWithinPool(m, overall, a)
  {
  }

  lemma SameAgents(paid: Results, clipped: Results, netted: Results, before: Overall, overall: Overall)
    requires AllClipped(clipped, netted, before) && AllPaid(paid, clipped, overall)
    ensures forall a :: Fiber(paid.Keys, AgentIn(paid), a) == Fiber(netted.Keys, AgentIn(netted), a)
  {
    forall u
      ensures AgentIn(paid)(u) == AgentIn(netted)(u)
    {
      if u in netted {
        assert clipped[u].agentid == netted[u].agentid;
      }
    }
  }

  /** The agent's price, and the condition unchanged since the shares were counted. */
  lemma AgentPriced(before: Overall, counts: Overall, overall: Overall, netted: Results, a: int)
    requires SharesCounted(counts, before, netted, netted.Keys) && AllPriced(overall, counts)
    requires Unpriced(before) && a in before && a in overall
    ensures overall[a].minperformance == before[a].minperformance
    ensures overall[a].allShares == CountedFor(netted, before, netted.Keys, a)
    ensures overall[a].moneyPerShare ==
            if overall[a].allShares > 0 then
              Quotient(100 * overall[a].allDividendsProfit, overall[a].allShares) as real / 100.0
            else
              0.0
  {
    hide Truncated, CountedFor;
    if overall[a].allShares > 0 {
      PriceIs(overall[a].allDividendsProfit, overall[a].allShares);
    }
  }

  lemma UserPaid(paid: Results, clipped: Results, netted: Results, before: Overall, counts: Overall, overall: Overall,
                 a: int, u: int)
    requires AllClipped(clipped, netted, before) && SharesCounted(counts, before, netted, netted.Keys)
    requires AllPriced(overall, counts) && AllPaid(paid, clipped, overall)
    requires NobodyPaid(netted) && Unpriced(before) && a in before && a in overall
    requires u in netted && netted[u].agentid == a
    ensures u in paid && ClippedSharesIn(netted, before)(u) >= 0
    ensures ProfitIn(paid)(u) ==
            if overall[a].allShares > 0 then
              PayFor(Quotient(100 * overall[a].allDividendsProfit, overall[a].allShares), ClippedSharesIn(netted, before)(u))
            else
              0
  {
    hide SharesCounted, AllPriced, Unpriced, Quotient, PayAtPrice, Clipped, PaidUser, PayFor;
    var share := ClippedSharesIn(netted, before)(u);
    AgentPriced(before, counts, overall, netted, a);
    PayFromShares(netted[u], before, overall);
    assert paid[u] == PaidUser(Clipped(netted[u], before), overall);
    hide AllClipped, AllPaid, NobodyPaid, ClippedSharesIn, CountedFor;
    PayAt(overall[a].moneyPerShare, overall[a].allDividendsProfit, overall[a].allShares, share);
  }

  lemma PayAt(price: real, pool: int, shares: int, share: int)
    requires price == if shares > 0 then Quotient(100 * pool, shares) as real / 100.0 else 0.0
    ensures PayAtPrice(price, share) == if shares > 0 then PayFor(Quotient(100 * pool, shares), share) else 0
  {
    hide Quotient, PayFor, PayAtPrice;
    if shares > 0 {
      PayIs(Quotient(100 * pool, shares), share);
    } else {
      NothingPaid(share);
    }
  }

  lemma NothingPaid(share: int)
    ensures PayAtPrice(0.0, share) == 0
  {
    assert 0.0 * share as real == 0.0;
  }

  lemma OneMoreBelow(m: Results, list: seq<int>, i: nat)
    requires i < |list|
    ensures BelowShares(m, list[..i + 1]) == BelowShares(m, list[..i]) + if list[i] in m then m[list[i]].teamShares else 0
  {
    assert list[..i + 1][..i] == list[..i];
  }

  lemma NobodyCounted()
    ensures WeekCounted(map[], [])
  {
  }

  // ---- Shares over the forest ----

  /** The lists below are those of a superior relation. */
  ghost predicate ListsChildren(m: Results, superior: int -> int) {
    && (forall u | u in m :: Distinct(m[u].belowUser))
    && (forall u, c | u in m && c in m :: c in m[u].belowUser <==> superior(c) == u)
  }

  ghost function NetIn(m: Results): int -> int {
    u => if u in m then m[u].selfShares - BelowShares(m, m[u].belowUser) else 0
  }

  ghost function BelowIn(m: Results): int -> int {
    u => if u in m then BelowShares(m, m[u].belowUser) else 0
  }

  lemma {:induction false} BelowIsSum(m: Results, list: seq<int>)
    requires Distinct(list)
    ensures BelowShares(m, list) == SumOver((set c | c in list && c in m), TeamSharesIn(m))
  {
    var members := set c | c in list && c in m;
    if list != [] {
      var rest, x := list[..|list| - 1], list[|list| - 1];
      BelowIsSum(m, rest);
      assert list == rest + [x] && forall c :: c in list <==> c in rest || c == x;
      var others := set c | c in rest && c in m;
      assert x !in others;
      if x in m {
        assert members == others + {x};
        SumGrows(others, TeamSharesIn(m), x);
      } else {
        assert members == others;
      }
    }
  }

  lemma BelowIsFiber(m: Results, superior: int -> int, u: int)
    requires ListsChildren(m, superior) && u in m
    ensures BelowShares(m, m[u].belowUser) == SumOver(Fiber(m.Keys, superior, u), TeamSharesIn(m))
  {
    var below := set c | c in m[u].belowUser && c in m;
    BelowIsSum(m, m[u].belowUser);
    forall c
      ensures c in below <==> c in Fiber(m.Keys, superior, u)
    {
    }
    assert below == Fiber(m.Keys, superior, u);
  }

  /** The users whose superior is not among the results. */
  ghost function Tops(m: Results, superior: int -> int): set<int> {
    set c | c in m.Keys && superior(c) !in m.Keys
  }

  /** Own shares over everybody are the team shares of those with no listed superior: every other
      team's shares are taken off once. */
  lemma NetSharesTelescope(m: Results, superior: int -> int)
    requires ListsChildren(m, superior) && forall u | u in m :: m[u].selfShares == m[u].teamShares
    ensures SumOver(m.Keys, NetIn(m)) == SumOver(Tops(m, superior), TeamSharesIn(m))
  {
    forall u | u in m.Keys
      ensures BelowIn(m)(u) == SumOver(Fiber(m.Keys, superior, u), TeamSharesIn(m))
    {
      BelowIsFiber(m, superior, u);
    }
    SumOfSums(m.Keys, NetIn(m), BelowIn(m), TeamSharesIn(m));
    hide NetIn, BelowIn, TeamSharesIn, ListsChildren;
    GroupsWithoutTops(m.Keys, superior, TeamSharesIn(m), BelowIn(m), Tops(m, superior));
  }

  lemma GroupsWithoutTops(s: set<int>, superior: int -> int, f: int -> int, perGroup: int -> int, tops: set<int>)
    requires forall u | u in s :: perGroup(u) == SumOver(Fiber(s, superior, u), f)
    requires tops == set c | c in s && superior(c) !in s
    ensures SumOver(s, f) == SumOver(s, perGroup) + SumOver(tops, f)
  {
    SumOfFibers(s, s, superior, f, perGroup);
    var below := set c | c in s && superior(c) in s;
    SumOfUnion(tops, below, f);
    assert tops + below == s;
  }

  // ---- Reading the levels ----

  /** The first n are sorted and no larger than the rest. */
  ghost predicate SortedUpTo(s: seq<WeekCondition>, n: nat)
    requires n <= |s|
  {
    forall i, k | 0 <= i < n && i < k < |s| :: s[i].level <= s[k].level
  }

  ghost predicate LeastUpTo(s: seq<WeekCondition>, i: nat, n: nat)
    requires i < |s| && n <= |s|
  {
    forall k | i < k < n :: s[i].level <= s[k].level
  }

  lemma OneMoreCompared(s: seq<WeekCondition>, t: seq<WeekCondition>, i: nat, j: nat)
    requires i < j < |s| && SortedUpTo(s, i) && LeastUpTo(s, i, j)
    requires t == if s[j].level < s[i].level then s[i := s[j]][j := s[i]] else s
    ensures SortedUpTo(t, i) && LeastUpTo(t, i, j + 1) && multiset(t) == multiset(s)
  {
  }

  lemma OneMoreSorted(s: seq<WeekCondition>, i: nat)
    requires i < |s| && SortedUpTo(s, i) && LeastUpTo(s, i, |s|)
    ensures SortedUpTo(s, i + 1)
  {
  }

  /** The exchange sort of the conditions by level. */
  method SortByLevel(conditions: array<WeekCondition>)
    modifies conditions
    ensures SortedUpTo(conditions[..], conditions.Length)
    ensures multiset(conditions[..]) == multiset(old(conditions[..]))
  {
    hide SortedUpTo, LeastUpTo;
    SortStarts(conditions[..]);
    for i := 0 to conditions.Length
      invariant SortedUpTo(conditions[..], i)
      invariant multiset(conditions[..]) == multiset(old(conditions[..]))
    {
      LeastStarts(conditions[..], i);
      for j := i + 1 to conditions.Length
        invariant SortedUpTo(conditions[..], i) && LeastUpTo(conditions[..], i, j)
        invariant multiset(conditions[..]) == multiset(old(conditions[..]))
      {
        ghost var before := conditions[..];
        if conditions[j].level < conditions[i].level {
          conditions[i], conditions[j] := conditions[j], conditions[i];
        }
        OneMoreCompared(before, conditions[..], i, j);
      }
      OneMoreSorted(conditions[..], i);
    }
  }

  lemma SortStarts(s: seq<WeekCondition>)
    ensures SortedUpTo(s, 0)
  {
  }

  lemma LeastStarts(s: seq<WeekCondition>, i: nat)
    requires i < |s|
    ensures LeastUpTo(s, i, i + 1)
  {
  }
}
