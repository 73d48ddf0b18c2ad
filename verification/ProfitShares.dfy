/** What the rate loop and the profit loop of algorithmlogic.cpp should leave in the income map,
    and why no commission is lost or invented. */
module ProfitShares {
  import opened BettingCount
  import opened Division
  import opened SetSums

  type Proxies = map<int, seq<ProxyInfo>>

  function PerTenThousand(x: int): int {
    Quotient(x, 10000)
  }

  function Total(e: IncomeUser): int {
    e.teamBetting + e.selfBetting
  }

  predicate InTier(t: ProxyInfo, total: int) {
    t.minvalidbet * 100 <= total < t.maxvalidbet * 100
  }

  /** The brokerage of the first tier the total lies in; the rate on file if there is none. */
  ghost function TierRate(tiers: seq<ProxyInfo>, total: int, base: int): int {
    if tiers == [] then base
    else if InTier(tiers[0], total) then tiers[0].brokerage
    else TierRate(tiers[1..], total, base)
  }

  ghost function RatedUser(e: IncomeUser, proxies: Proxies): IncomeUser {
    var rate := if e.agentid in proxies then TierRate(proxies[e.agentid], Total(e), e.guarantee) else e.guarantee;
    e.(guarantee := rate, selfProfit := PerTenThousand(e.selfBetting * rate))
  }

  ghost function Rated(income: map<int, IncomeUser>, proxies: Proxies): map<int, IncomeUser> {
    map u | u in income :: RatedUser(income[u], proxies)
  }

  // ---- Sharing ----

  /** An id without an entry reads as rate zero, and the reading makes an entry. */
  ghost function RateIn(m: map<int, IncomeUser>, u: int): int {
    if u in m then m[u].guarantee else 0
  }

  ghost predicate Looks(e: IncomeUser) {
    Total(e) != 0 && e.upUserid != 0
  }

  ghost predicate Pays(m: map<int, IncomeUser>, c: int) {
    c in m && Looks(m[c]) && RateIn(m, m[c].upUserid) >= m[c].guarantee
  }

  /** The difference of two rates, in ten-thousandths, on a total. */
  function DifferenceOn(total: int, rate: int, below: int): int {
    PerTenThousand(total * (rate - below))
  }

  /** What c contributes to its superior. */
  ghost function Commission(m: map<int, IncomeUser>, c: int): int {
    if Pays(m, c) then DifferenceOn(Total(m[c]), RateIn(m, m[c].upUserid), m[c].guarantee) else 0
  }

  ghost function CommissionIn(m: map<int, IncomeUser>): int -> int {
    c => Commission(m, c)
  }

  ghost function UpIn(m: map<int, IncomeUser>): int -> int {
    c => if c in m then m[c].upUserid else 0
  }

  /** p's share from those of its direct children that are done. */
  ghost function TeamShare(m: map<int, IncomeUser>, done: set<int>, p: int): int {
    SumOver(Fiber(done, UpIn(m), p), CommissionIn(m))
  }

  ghost function Reached(m: map<int, IncomeUser>, done: set<int>): set<int> {
    m.Keys + set c | c in done && c in m && Looks(m[c]) :: m[c].upUserid
  }

  ghost function After(m: map<int, IncomeUser>, done: set<int>, k: int): IncomeUser {
    var e := if k in m then m[k] else NO_INCOME;
    e.(teamProfit := e.teamProfit + TeamShare(m, done, k),
       contribution := if k in done && Pays(m, k) then Commission(m, k) else e.contribution)
  }

  /** The state when the members of done have been visited. */
  ghost predicate SharedSoFar(income: map<int, IncomeUser>, m: map<int, IncomeUser>, done: set<int>) {
    && income.Keys == Reached(m, done)
    && forall k | k in income :: income[k] == After(m, done, k)
  }

  /** The state after the profit loop: each entry's contribution is its commission, and each
      superior's team profit the sum over its direct children. */
  ghost predicate Shared(income: map<int, IncomeUser>, m: map<int, IncomeUser>) {
    SharedSoFar(income, m, m.Keys)
  }

  lemma NothingShared(m: map<int, IncomeUser>)
    ensures SharedSoFar(m, m, {})
  {
    forall k | k in m
      ensures m[k] == After(m, {}, k)
    {
      assert Fiber({}, UpIn(m), k) == {};
    }
  }

  lemma OneMoreShares(m: map<int, IncomeUser>, done: set<int>, c: int)
    requires c in m && c !in done && done <= m.Keys
    ensures forall p :: TeamShare(m, done + {c}, p)
                     == TeamShare(m, done, p) + if p == m[c].upUserid then Commission(m, c) else 0
    ensures Reached(m, done + {c}) == Reached(m, done) + if Looks(m[c]) then {m[c].upUserid} else {}
  {
    forall p
      ensures TeamShare(m, done + {c}, p)
           == TeamShare(m, done, p) + if p == m[c].upUserid then Commission(m, c) else 0
    {
      if p == m[c].upUserid {
        assert Fiber(done + {c}, UpIn(m), p) == Fiber(done, UpIn(m), p) + {c};
        SumGrows(Fiber(done, UpIn(m), p), CommissionIn(m), c);
      } else {
        assert Fiber(done + {c}, UpIn(m), p) == Fiber(done, UpIn(m), p);
      }
    }
  }

  // ---- Conservation ----

  ghost function TeamProfitIn(m: map<int, IncomeUser>): int -> int {
    u => if u in m then m[u].teamProfit else 0
  }

  ghost function ContributionIn(m: map<int, IncomeUser>): int -> int {
    u => if u in m then m[u].contribution else 0
  }

  ghost function TeamShareIn(m: map<int, IncomeUser>): int -> int {
    p => TeamShare(m, m.Keys, p)
  }

  ghost predicate Unpaid(m: map<int, IncomeUser>) {
    forall u | u in m :: m[u].teamProfit == 0 && m[u].contribution == 0
  }

  /** Every commission arrives with exactly one superior, entries made on the way included. */
  lemma CommissionConserved(income: map<int, IncomeUser>, m: map<int, IncomeUser>)
    requires Shared(income, m) && Unpaid(m)
    ensures SumOver(income.Keys, TeamProfitIn(income)) == SumOver(income.Keys, ContributionIn(income))
    ensures SumOver(income.Keys, ContributionIn(income)) == SumOver(m.Keys, CommissionIn(m))
  {
    hide *;
    TeamProfitsArrive(income, m);
    ContributionsSum(income, m);
  }

  lemma TeamProfitsArrive(income: map<int, IncomeUser>, m: map<int, IncomeUser>)
    requires Shared(income, m) && Unpaid(m)
    ensures SumOver(income.Keys, TeamProfitIn(income)) == SumOver(m.Keys, CommissionIn(m))
  {
    forall u | u in income.Keys
      ensures TeamProfitIn(income)(u) == TeamShareIn(m)(u)
    {
      assert income[u] == After(m, m.Keys, u);
    }
    SumSame(income.Keys, TeamProfitIn(income), TeamShareIn(m));
    hide *;
    TeamSharesArrive(m, income.Keys);
  }

  lemma TeamSharesArrive(m: map<int, IncomeUser>, keys: set<int>)
    requires keys == Reached(m, m.Keys)
    ensures SumOver(keys, TeamShareIn(m)) == SumOver(m.Keys, CommissionIn(m))
  {
    SumOfFibers(m.Keys, keys, UpIn(m), CommissionIn(m), TeamShareIn(m));
    SumOfPart((set c | c in m.Keys && UpIn(m)(c) in keys), m.Keys, CommissionIn(m));
  }

  lemma ContributionsSum(income: map<int, IncomeUser>, m: map<int, IncomeUser>)
    requires Shared(income, m) && Unpaid(m)
    ensures SumOver(income.Keys, ContributionIn(income)) == SumOver(m.Keys, CommissionIn(m))
  {
    forall u | u in income.Keys
      ensures ContributionIn(income)(u) == CommissionIn(m)(u)
    {
      assert income[u] == After(m, m.Keys, u);
    }
    SumSame(income.Keys, ContributionIn(income), CommissionIn(m));
    SumOfPart(m.Keys, income.Keys, CommissionIn(m));
  }

  /** A superior's team profit, after the loop, is the sum over its direct children. */
  lemma TeamProfitOfChildren(income: map<int, IncomeUser>, m: map<int, IncomeUser>, p: int)
    requires Shared(income, m) && Unpaid(m) && p in income
    ensures income[p].teamProfit == SumOver((set c | c in m && m[c].upUserid == p), CommissionIn(m))
  {
    assert (set c | c in m && m[c].upUserid == p) == Fiber(m.Keys, UpIn(m), p);
  }
}
