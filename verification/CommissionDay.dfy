/** A whole day's commission: what is left in the income map is within the bound. */
module CommissionDay {
  import opened SetSums
  import opened BettingCount
  import opened NewUserCount
  import opened ProfitShares
  import opened CommissionRun
  import opened CommissionBound
  import opened ReferralForest

  /** The registrations joined at the end pay nobody. */
  lemma GrowthPaysNothing(after: map<int, IncomeUser>, income: map<int, IncomeUser>, growth: map<int, Growth>)
    requires WithGrowth(after, income, growth)
    ensures SumOver(after.Keys, PaidIn(after)) == SumOver(income.Keys, PaidIn(income))
  {
    forall u | u in after.Keys
      ensures PaidIn(after)(u) == PaidIn(income)(u)
    {
    }
    SumSame(after.Keys, PaidIn(after), PaidIn(income));
    SumOfPart(income.Keys, after.Keys, PaidIn(income));
  }

  /** Registrations counted and the day's bets settled: what all users are paid together is at most
      the top tier's rate on all bets, whatever the stored superiors. */
  method SettleDay(logic: AlgorithmLogic, newUsers: seq<NewUser>, bettors: seq<Bettor>, users: Users, proxies: Proxies,
                   ghost depth: map<int, nat>, ghost agent: int)
    requires RatesOnFile(bettors, users)
    requires agent in proxies && Day(bettors, users, depth, agent, proxies[agent])
    modifies logic
    ensures 10000 * SumOver(logic.incomeUserMap.Keys, PaidIn(logic.incomeUserMap))
         <= Last(proxies[agent]).brokerage * TotalBets(bettors)
    ensures GrowthCounted(logic.haveAddNewUserMap, newUsers)
  {
    assert proxies[agent] != [];
    hide *;
    logic.HaveAddNewRegisteredUser(newUsers);
    ghost var counted, shared := logic.CalculatAllBenefitsUser(bettors, users, proxies);
    PayoutBounded(bettors, users, depth, agent, proxies, counted, shared);
    GrowthPaysNothing(logic.incomeUserMap, shared, logic.haveAddNewUserMap);
  }
}
