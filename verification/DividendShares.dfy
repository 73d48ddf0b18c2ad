/** The weekly dividend of algorithmlogic.cpp: what each step should compute. Shares are kept in
    doubles there, but each is a 64-bit quotient or a difference of such, so they are integers
    here; scales and money per share are exact reals. */
module DividendShares {
  import opened Division
  import opened Options
  import opened SetSums

  datatype WeekCondition = WeekCondition(level: int, share: int, minPerformance: int, maxPerformance: int)

  datatype WeekInformation = WeekInformation(
    minperformance: int, dividendScale: real, allProfit: int, allBeting: int,
    allDividendsProfit: int, allShares: int, moneyPerShare: real)

  datatype WeekUser = WeekUser(
    selfBetting: int, teamBetting: int, agentid: int, userid: int, belowUser: seq<int>,
    level: int, teamShares: int, selfShares: int, userProfit: int, moneyPerShare: real,
    lastAllBetting: int, allDividends: int)

  type Results = map<int, WeekUser>
  type Overall = map<int, WeekInformation>
  type Conditions = map<int, seq<WeekCondition>>

  /** The condition that applies where the agent has none. */
  const NO_AGENT_CONDITION := 10000000000

  /** Conversion from double to int64, toward zero. */
  function Truncated(x: real): int {
    if x >= 0.0 then x.Floor else -(-x).Floor
  }

  function AllBetting(e: WeekUser): int {
    e.teamBetting + e.selfBetting
  }

  // ---- Shares ----

  /** The last level is open above. */
  predicate InLevel(levels: seq<WeekCondition>, i: nat, total: int)
    requires i < |levels|
  {
    levels[i].minPerformance <= total && (total < levels[i].maxPerformance || i == |levels| - 1)
  }

  /** The last of the first n levels the total lies in: the loop does not stop at the first. */
  ghost function LevelOf(levels: seq<WeekCondition>, n: nat, total: int): Option<WeekCondition>
    requires n <= |levels|
  {
    if n == 0 then None
    else if InLevel(levels, n - 1, total) then Some(levels[n - 1])
    else LevelOf(levels, n - 1, total)
  }

  ghost function WithLevel(e: WeekUser, level: Option<WeekCondition>): WeekUser {
    if level.None? then e else
    var shares := Quotient(level.value.share * AllBetting(e), 10000);
    e.(level := level.value.level, teamShares := shares, selfShares := shares)
  }

  ghost function Leveled(e: WeekUser, overall: Overall, conditions: Conditions): WeekUser {
    if e.agentid in overall && AllBetting(e) >= overall[e.agentid].minperformance && |e.belowUser| > 1
       && e.agentid in conditions then
      WithLevel(e, LevelOf(conditions[e.agentid], |conditions[e.agentid]|, AllBetting(e)))
    else
      e
  }

  ghost function TeamSharesIn(m: Results): int -> int {
    u => if u in m then m[u].teamShares else 0
  }

  /** The team shares of the listed users. */
  ghost function BelowShares(m: Results, below: seq<int>): int {
    if below == [] then 0
    else BelowShares(m, below[..|below| - 1]) + TeamSharesIn(m)(below[|below| - 1])
  }

  /** Own shares: the team's, less those of the teams directly below. */
  ghost function Netted(m: Results, e: WeekUser): WeekUser {
    e.(selfShares := e.selfShares - BelowShares(m, e.belowUser))
  }

  ghost function ConditionOf(e: WeekUser, overall: Overall): int {
    if e.agentid in overall then overall[e.agentid].minperformance else NO_AGENT_CONDITION
  }

  ghost predicate Qualifies(e: WeekUser, overall: Overall) {
    |e.belowUser| > 1 && AllBetting(e) >= ConditionOf(e, overall) && e.selfShares >= 0
  }

  ghost function Clipped(e: WeekUser, overall: Overall): WeekUser {
    if Qualifies(e, overall) then e else e.(selfShares := 0)
  }

  ghost function AgentIn(m: Results): int -> int {
    u => if u in m then m[u].agentid else 0
  }

  // ---- Money ----

  ghost function Priced(info: WeekInformation): WeekInformation {
    var pool := Truncated(info.allProfit as real * info.dividendScale / 100.0);
    var price :=
      if info.allShares > 0 then
        Truncated(pool as real / info.allShares as real * 100.0) as real / 100.0
      else
        info.moneyPerShare;
    info.(allDividendsProfit := pool, moneyPerShare := price)
  }

  function PayAtPrice(price: real, share: int): int {
    Truncated(price * share as real)
  }

  ghost function PaidUser(e: WeekUser, overall: Overall): WeekUser {
    if !Qualifies(e, overall) then
      e.(selfShares := 0)
    else if e.agentid !in overall then
      e
    else
      var info := overall[e.agentid];
      e.(moneyPerShare := info.moneyPerShare, userProfit := PayAtPrice(info.moneyPerShare, e.selfShares),
         lastAllBetting := info.allBeting, allDividends := info.allDividendsProfit)
  }

  // ---- Truncation ----

  ghost function Abs(x: int): int {
    if x < 0 then -x else x
  }

  lemma TruncatedQuotient(x: int, d: int)
    requires d > 0
    ensures Truncated(x as real / d as real) == Quotient(x, d)
  {
    FloorOfQuotient(Abs(x), d);
    if x < 0 {
      NegativeQuotient(x as real, d as real);
    }
  }

  lemma NegativeQuotient(x: real, d: real)
    requires d > 0.0 && x < 0.0
    ensures x / d < 0.0 && -(x / d) == -x / d
  {
  }

  lemma FloorOfQuotient(x: nat, d: int)
    requires d > 0
    ensures (x as real / d as real).Floor == x / d && x as real / d as real >= 0.0
  {
    var q, r := x / d, x as real / d as real;
    assert q * d <= x < (q + 1) * d;
    assert r * d as real == x as real;
    BetweenMultiples(r, q, d);
  }

  lemma BetweenMultiples(r: real, q: int, d: int)
    requires d > 0 && q as real * d as real <= r * d as real < (q + 1) as real * d as real
    ensures q as real <= r < (q + 1) as real
  {
  }

  /** Truncation keeps the sign and loses less than one unit. */
  lemma QuotientBounds(x: int, d: int)
    requires d > 0
    ensures Abs(Quotient(x, d)) * d <= Abs(x) < (Abs(Quotient(x, d)) + 1) * d
    ensures x >= 0 ==> Quotient(x, d) >= 0
    ensures x <= 0 ==> Quotient(x, d) <= 0
  {
  }

  // ---- The pool ----

  ghost function AbsOf(f: int -> int): int -> int {
    u => Abs(f(u))
  }

  ghost function One(): int -> int {
    u => 1
  }

  lemma {:induction false} SumOfOnes(s: set<int>)
    ensures SumOver(s, One()) == |s|
  {
    if s != {} {
      Inhabited(s);
      var x :| x in s;
      SumTakes(s, One(), x);
      SumOfOnes(s - {x});
    }
  }

  /** Numbers of one sign add up to the sum of their sizes. */
  lemma SameSign(s: set<int>, f: int -> int, negative: bool)
    requires forall u | u in s :: if negative then f(u) <= 0 else f(u) >= 0
    ensures Abs(SumOver(s, f)) == SumOver(s, AbsOf(f))
    ensures if negative then SumOver(s, f) <= 0 else SumOver(s, f) >= 0
  {
    SumOfNothing(s, Zero());
    if negative {
      SumScaled(s, f, -1, AbsOf(f));
      SumAtMost(s, f, Zero());
    } else {
      SumSame(s, f, AbsOf(f));
      SumAtMost(s, Zero(), f);
    }
  }

  ghost function Times(c: int, f: int -> int): int -> int {
    u => c * f(u)
  }

  /** What some shares bring at a price in hundredths. */
  function PayFor(price: int, share: int): int {
    Quotient(price * share, 100)
  }

  /** Paying every share its price, with both truncations, never exceeds the pool, keeps its sign,
      and leaves less of it than one unit a payee and a hundredth for every share. */
  lemma PoolShared(s: set<int>, share: int -> int, pay: int -> int, pool: int, shares: int)
    requires shares > 0 && SumOver(s, share) == shares && forall u | u in s :: share(u) >= 0
    requires forall u | u in s :: pay(u) == PayFor(Quotient(100 * pool, shares), share(u))
    ensures Abs(SumOver(s, pay)) <= Abs(pool)
    ensures pool >= 0 ==> SumOver(s, pay) >= 0
    ensures pool <= 0 ==> SumOver(s, pay) <= 0
    ensures 100 * (Abs(pool) - Abs(SumOver(s, pay))) < 100 * |s| + shares
  {
    hide Quotient, Abs, Times, PayAndRest, PayFor, Worth;
    var price := Quotient(100 * pool, shares);
    PriceBounds(pool, shares);
    forall u | u in s
      ensures Times(100, AbsOf(pay))(u) <= Times(Abs(price), share)(u) <= PayAndRest(pay)(u)
      ensures pool >= 0 ==> pay(u) >= 0
      ensures pool <= 0 ==> pay(u) <= 0
    {
      PayOf(price, share, pay, u);
    }
    if pool <= 0 {
      SameSign(s, pay, true);
    }
    if pool >= 0 {
      SameSign(s, pay, false);
    }
    PaysAddUp(s, share, pay, Abs(price));
    PriceSize(Worth(Abs(price), shares), Abs(pool), shares, SumOver(s, AbsOf(pay)), |s|);
  }

  ghost function Worth(price: int, shares: int): int {
    price * shares
  }

  lemma PayOf(price: int, share: int -> int, pay: int -> int, u: int)
    requires share(u) >= 0 && pay(u) == PayFor(price, share(u))
    ensures Times(100, AbsOf(pay))(u) <= Times(Abs(price), share)(u) <= PayAndRest(pay)(u)
    ensures price >= 0 ==> pay(u) >= 0
    ensures price <= 0 ==> pay(u) <= 0
  {
    hide Quotient, Abs;
    PaySize(price, share(u));
  }

  lemma PriceBounds(pool: int, shares: int)
    requires shares > 0
    ensures var price := Quotient(100 * pool, shares);
            && Worth(Abs(price), shares) <= 100 * Abs(pool) < Worth(Abs(price), shares) + shares
            && (pool >= 0 ==> price >= 0) && (pool <= 0 ==> price <= 0)
  {
    QuotientBounds(100 * pool, shares);
  }

  lemma PaysAddUp(s: set<int>, share: int -> int, pay: int -> int, price: int)
    requires forall u | u in s :: Times(100, AbsOf(pay))(u) <= Times(price, share)(u) <= PayAndRest(pay)(u)
    ensures 100 * SumOver(s, AbsOf(pay)) <= Worth(price, SumOver(s, share)) <= 100 * SumOver(s, AbsOf(pay)) + 100 * |s|
  {
    hide Abs, Times, AbsOf, PayAndRest;
    TimesSum(s, 100, AbsOf(pay));
    TimesSum(s, price, share);
    SumAtMost(s, Times(100, AbsOf(pay)), Times(price, share));
    RestSum(s, pay);
    SumAtMost(s, Times(price, share), PayAndRest(pay));
  }

  lemma TimesSum(s: set<int>, c: int, f: int -> int)
    ensures SumOver(s, Times(c, f)) == c * SumOver(s, f)
  {
    SumScaled(s, f, c, Times(c, f));
  }

  lemma RestSum(s: set<int>, pay: int -> int)
    ensures SumOver(s, PayAndRest(pay)) == 100 * SumOver(s, AbsOf(pay)) + 100 * |s|
  {
    SumOfOnes(s);
    TimesSum(s, 100, One());
    TimesSum(s, 100, AbsOf(pay));
    SumOfSums(s, Times(100, AbsOf(pay)), Times(100, One()), PayAndRest(pay));
  }

  ghost function PayAndRest(pay: int -> int): int -> int {
    u => 100 * Abs(pay(u)) + 100
  }

  lemma PaySize(price: int, share: int)
    requires share >= 0
    ensures 100 * Abs(PayFor(price, share)) <= Abs(price) * share <= 100 * Abs(PayFor(price, share)) + 100
    ensures price >= 0 ==> PayFor(price, share) >= 0
    ensures price <= 0 ==> PayFor(price, share) <= 0
  {
    assert Abs(price * share) == Abs(price) * share;
    assert price >= 0 ==> price * share >= 0;
    assert price <= 0 ==> price * share <= 0;
    QuotientBounds(price * share, 100);
  }

  lemma PriceSize(due: int, pool: int, shares: int, paid: int, n: int)
    requires due <= 100 * pool < due + shares
    requires 100 * paid <= due <= 100 * paid + 100 * n
    ensures paid <= pool && 100 * (pool - paid) < 100 * n + shares
  {
  }
}
