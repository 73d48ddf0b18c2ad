/** The daily commission of algorithmlogic.cpp: who bet, whose teams grew, and who is paid what.
    The database is the map `users`; the bettors come as a sequence, the order in which the
    std::map of bettors is walked. */
module BettingCount {
  import opened Options
  import opened SetSums

  datatype GameUser = GameUser(superior: Option<int>, minrebaterate: Option<int>)

  datatype Bettor = Bettor(userid: int, agentid: int, bettingScore: int, superiorAgent: seq<int>)

  datatype IncomeUser = IncomeUser(
    selfBetting: int, teamBetting: int, agentid: int, userid: int, upUserid: int, guarantee: int,
    selfProfit: int, teamProfit: int, newUserZhi: int, newUserTuan: int, contribution: int)

  datatype ProxyInfo = ProxyInfo(minvalidbet: int, maxvalidbet: int, brokerage: int)

  type Users = map<int, GameUser>

  const NO_INCOME := IncomeUser(0, 0, 0, 0, 0, 0, 0, 0, 0, 0, 0)

  // ---- What the betting loop should find ----

  function Last<T>(s: seq<T>): T
    requires s != []
  {
    s[|s| - 1]
  }

  function Init<T>(s: seq<T>): seq<T>
    requires s != []
  {
    s[..|s| - 1]
  }

  /** Everyone who bet or stands above a bettor. */
  ghost function Touched(bettors: seq<Bettor>): set<int> {
    if bettors == [] then
      {}
    else
      Touched(Init(bettors)) + TouchedBy(Last(bettors))
  }

  ghost function TouchedBy(b: Bettor): set<int> {
    {b.userid} + set u | u in b.superiorAgent
  }

  ghost function SelfBets(bettors: seq<Bettor>, u: int): int {
    if bettors == [] then
      0
    else if Last(bettors).userid == u then
      Last(bettors).bettingScore
    else
      SelfBets(Init(bettors), u)
  }

  /** Every bettor's score, once for each time u is listed above the bettor. */
  ghost function TeamBets(bettors: seq<Bettor>, u: int): int {
    if bettors == [] then 0 else TeamBets(Init(bettors), u) + Share(Last(bettors), u)
  }

  ghost function Share(b: Bettor, u: int): int {
    multiset(b.superiorAgent)[u] * b.bettingScore
  }

  /** The minimum rate on file. */
  function BaseRate(users: Users, u: int): int {
    if u in users then users[u].minrebaterate.GetOr(0) else 0
  }

  function SuperiorOf(users: Users, u: int): int {
    if u in users then users[u].superior.GetOr(0) else 0
  }

  /** An entry keeps what the first bettor to touch it stored: its own superior when it bet
      itself, and else that bettor's id. */
  ghost function StoredUp(bettors: seq<Bettor>, users: Users, u: int): int {
    if bettors == [] then
      0
    else if u in Touched(Init(bettors)) then
      StoredUp(Init(bettors), users, u)
    else if Last(bettors).userid == u then
      SuperiorOf(users, u)
    else
      Last(bettors).userid
  }

  ghost function StoredAgent(bettors: seq<Bettor>, u: int): int {
    if bettors == [] then
      0
    else if u in Touched(Init(bettors)) then
      StoredAgent(Init(bettors), u)
    else
      Last(bettors).agentid
  }

  ghost function Entry(bettors: seq<Bettor>, users: Users, u: int): IncomeUser {
    IncomeUser(SelfBets(bettors, u), TeamBets(bettors, u), StoredAgent(bettors, u), u, StoredUp(bettors, users, u),
               BaseRate(users, u), 0, 0, 0, 0, 0)
  }

  ghost predicate Counted(income: map<int, IncomeUser>, bettors: seq<Bettor>, users: Users) {
    && income.Keys == Touched(bettors)
    && forall u | u in income :: income[u] == Entry(bettors, users, u)
  }

  /** A superior on file without a rate makes the lookup throw. */
  ghost predicate RatesOnFile(bettors: seq<Bettor>, users: Users) {
    forall b, u | b in bettors && u in b.superiorAgent && u in users :: users[u].minrebaterate.Some?
  }

  // ---- One step of the betting loop ----

  /** A bettor of whose superiors only the first j have been credited. */
  function UpTo(b: Bettor, j: nat): Bettor
    requires j <= |b.superiorAgent|
  {
    b.(superiorAgent := b.superiorAgent[..j])
  }

  lemma BettorJoins(done: seq<Bettor>, users: Users, b: Bettor)
    ensures var now := done + [UpTo(b, 0)];
            && Touched(now) == Touched(done) + {b.userid}
            && (forall u | u in Touched(done) && u != b.userid :: Entry(now, users, u) == Entry(done, users, u))
            && Entry(now, users, b.userid) ==
               (if b.userid in Touched(done) then
                  Entry(done, users, b.userid).(selfBetting := b.bettingScore)
                else
                  NO_INCOME.(userid := b.userid, agentid := b.agentid, selfBetting := b.bettingScore,
                             upUserid := SuperiorOf(users, b.userid), guarantee := BaseRate(users, b.userid)))
  {
    hide BaseRate, SuperiorOf;
    var now := done + [UpTo(b, 0)];
    assert Init(now) == done && Last(now) == UpTo(b, 0);
    assert forall u :: Share(UpTo(b, 0), u) == 0;
    hide Share;
    if b.userid !in Touched(done) {
      UntouchedTeam(done, b.userid);
    }
  }

  lemma {:induction false} UntouchedTeam(bettors: seq<Bettor>, u: int)
    requires u !in Touched(bettors)
    ensures TeamBets(bettors, u) == 0 && SelfBets(bettors, u) == 0
  {
    if bettors != [] {
      assert u !in TouchedBy(Last(bettors));
      UntouchedTeam(Init(bettors), u);
    }
  }

  lemma SuperiorCredited(done: seq<Bettor>, users: Users, b: Bettor, j: nat)
    requires j < |b.superiorAgent|
    ensures var was, now, s := done + [UpTo(b, j)], done + [UpTo(b, j + 1)], b.superiorAgent[j];
            && Touched(now) == Touched(was) + {s}
            && (forall u | u in Touched(was) && u != s :: Entry(now, users, u) == Entry(was, users, u))
            && Entry(now, users, s) ==
               (if s in Touched(was) then
                  Entry(was, users, s).(teamBetting := TeamBets(was, s) + b.bettingScore)
                else
                  NO_INCOME.(userid := s, agentid := b.agentid, teamBetting := b.bettingScore,
                             upUserid := b.userid, guarantee := BaseRate(users, s)))
  {
    hide Share;
    var was, now, s := done + [UpTo(b, j)], done + [UpTo(b, j + 1)], b.superiorAgent[j];
    assert Init(now) == done == Init(was) && Last(now) == UpTo(b, j + 1) && Last(was) == UpTo(b, j);
    assert b.superiorAgent[..j + 1] == b.superiorAgent[..j] + [s];
    forall u
      ensures TeamBets(now, u) == TeamBets(was, u) + if u == s then b.bettingScore else 0
    {
      ShareGrows(b, j, u);
    }
    if s !in Touched(was) {
      UntouchedTeam(was, s);
    }
  }

  lemma ShareGrows(b: Bettor, j: nat, u: int)
    requires j < |b.superiorAgent|
    ensures Share(UpTo(b, j + 1), u) == Share(UpTo(b, j), u) + if u == b.superiorAgent[j] then b.bettingScore else 0
  {
    assert b.superiorAgent[..j + 1] == b.superiorAgent[..j] + [b.superiorAgent[j]];
    OneMore(multiset(b.superiorAgent[..j])[u], b.bettingScore);
  }

  lemma OneMore(n: nat, x: int)
    ensures (n + 1) * x == n * x + x
  {
  }

  lemma NoneCounted(users: Users)
    ensures Counted(map[], [], users)
  {
  }

  // ---- What the counts add up to ----

  ghost function TeamBetsOf(bettors: seq<Bettor>): int -> int {
    u => TeamBets(bettors, u)
  }

  ghost function ShareOf(b: Bettor): int -> int {
    u => Share(b, u)
  }

  /** Each bettor's score times the length of its list of superiors. */
  ghost function ListedBets(bettors: seq<Bettor>): int {
    if bettors == [] then 0 else ListedBets(Init(bettors)) + Last(bettors).bettingScore * |Last(bettors).superiorAgent|
  }

  /** All teams together bet every score once for each listed superior. */
  lemma TeamBetsAddUp(bettors: seq<Bettor>)
    ensures SumOver(Touched(bettors), TeamBetsOf(bettors)) == ListedBets(bettors)
  {
    TeamBetsOver(bettors, Touched(bettors));
  }

  lemma {:induction false} TeamBetsOver(bettors: seq<Bettor>, s: set<int>)
    requires Touched(bettors) <= s
    ensures SumOver(s, TeamBetsOf(bettors)) == ListedBets(bettors)
  {
    if bettors == [] {
      SumOfNothing(s, TeamBetsOf(bettors));
    } else {
      var b := Last(bettors);
      TeamBetsOver(Init(bettors), s);
      SumOfSums(s, TeamBetsOf(Init(bettors)), ShareOf(b), TeamBetsOf(bettors));
      forall u | u in b.superiorAgent
        ensures u in s
      {
        assert u in TouchedBy(b);
      }
      SumOfOccurrences(s, b.superiorAgent);
      SharesScale(b);
      SumScaled(s, OccurrencesIn(b.superiorAgent), b.bettingScore, ShareOf(b));
    }
  }

  lemma SharesScale(b: Bettor)
    ensures forall u :: ShareOf(b)(u) == b.bettingScore * OccurrencesIn(b.superiorAgent)(u)
  {
  }

  // ---- Order ----

  /** Distinct bettors, as the keys of the map they come from. */
  ghost predicate DistinctIds(bettors: seq<Bettor>) {
    forall i, k | 0 <= i < k < |bettors| :: bettors[i].userid != bettors[k].userid
  }

  ghost function WithoutAt(bettors: seq<Bettor>, i: nat): seq<Bettor>
    requires i < |bettors|
  {
    bettors[..i] + bettors[i + 1..]
  }

  /** Taking a bettor out from anywhere changes the counts by what it brought. */
  lemma {:induction false} BettorAnywhere(bettors: seq<Bettor>, i: nat, u: int)
    requires i < |bettors| && DistinctIds(bettors)
    ensures TeamBets(bettors, u) == TeamBets(WithoutAt(bettors, i), u) + Share(bettors[i], u)
    ensures SelfBets(bettors, u) == if bettors[i].userid == u then bettors[i].bettingScore
                                    else SelfBets(WithoutAt(bettors, i), u)
    ensures Touched(bettors) == Touched(WithoutAt(bettors, i)) + TouchedBy(bettors[i])
    decreases |bettors|
  {
    hide Share, TouchedBy;
    if i == |bettors| - 1 {
      assert WithoutAt(bettors, i) == Init(bettors);
    } else {
      assert Init(WithoutAt(bettors, i)) == WithoutAt(Init(bettors), i);
      BettorAnywhere(Init(bettors), i, u);
    }
  }

  /** Bets, teams and the set of users touched do not depend on the order of the bettors. */
  lemma {:induction false} OrderDoesNotMatter(bettors: seq<Bettor>, others: seq<Bettor>, u: int)
    requires multiset(bettors) == multiset(others) && DistinctIds(bettors) && DistinctIds(others)
    ensures SelfBets(bettors, u) == SelfBets(others, u)
    ensures TeamBets(bettors, u) == TeamBets(others, u)
    ensures Touched(bettors) == Touched(others)
    decreases |bettors|
  {
    hide Share, TouchedBy;
    if bettors == [] {
      assert |multiset(others)| == 0;
    } else {
      var b := Last(bettors);
      var i := FoundIn(b, bettors, others);
      BettorAnywhere(others, i, u);
      OthersDistinct(others, i);
      OthersDistinct(bettors, |bettors| - 1);
      assert WithoutAt(bettors, |bettors| - 1) == Init(bettors);
      OrderDoesNotMatter(Init(bettors), WithoutAt(others, i), u);
    }
  }

  lemma FoundIn(b: Bettor, bettors: seq<Bettor>, others: seq<Bettor>) returns (i: nat)
    requires bettors != [] && b == Last(bettors) && multiset(bettors) == multiset(others)
    ensures i < |others| && others[i] == b && multiset(Init(bettors)) == multiset(WithoutAt(others, i))
  {
    assert bettors == Init(bettors) + [b];
    assert multiset(Init(bettors)) == multiset(bettors) - multiset{b};
    assert b in multiset(others);
    i :| 0 <= i < |others| && others[i] == b;
    hide WithoutAt;
    TakenOut(others, i);
  }

  lemma OthersDistinct(bettors: seq<Bettor>, i: nat)
    requires i < |bettors| && DistinctIds(bettors)
    ensures DistinctIds(WithoutAt(bettors, i))
  {
  }

  lemma TakenOut(bettors: seq<Bettor>, i: nat)
    requires i < |bettors|
    ensures multiset(WithoutAt(bettors, i)) == multiset(bettors) - multiset{bettors[i]}
  {
    assert bettors == bettors[..i] + [bettors[i]] + bettors[i + 1..];
  }

  lemma {:induction false} OwnBet(bettors: seq<Bettor>, i: nat)
    requires i < |bettors| && DistinctIds(bettors)
    ensures SelfBets(bettors, bettors[i].userid) == bettors[i].bettingScore
  {
    if i < |bettors| - 1 {
      OwnBet(Init(bettors), i);
    }
  }
}
