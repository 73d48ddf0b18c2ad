/** ServerUserManager.cpp: user items fetched for a player, found by id, and recycled. */
module UserManager {
  import opened Lists
  import opened Options
  import SetSums

  const INVALID_TABLE := 0xFFFF
  const INVALID_CHAIR := 0xFFFF

  class CServerUserItem {
    var userId: int
    var agentId: int
    var tableId: int
    var chairId: int

    constructor ()
      ensures userId == 0 && agentId == 0 && tableId == INVALID_TABLE && chairId == INVALID_CHAIR
    {
      userId, agentId, tableId, chairId := 0, 0, INVALID_TABLE, INVALID_CHAIR;
    }

    method ResetUserItem()
      modifies this
      ensures userId == 0 && agentId == 0 && tableId == INVALID_TABLE && chairId == INVALID_CHAIR
    {
      tableId := INVALID_TABLE;
      chairId := INVALID_CHAIR;
      userId, agentId := 0, 0;
    }

    method SetUserBaseInfo(userId: int, agentId: int)
      modifies this`userId, this`agentId
      ensures this.userId == userId && this.agentId == agentId
    {
      this.userId, this.agentId := userId, agentId;
    }
  }

  /** An int64_t stored in an int. */
  function ToInt32(x: int): (y: int)
    ensures -0x8000_0000 <= y < 0x8000_0000 && (y == x <==> FitsInt32(x))
  {
    (x + 0x8000_0000) % 0x1_0000_0000 - 0x8000_0000
  }

  predicate FitsInt32(x: int) {
    -0x8000_0000 <= x < 0x8000_0000
  }

  /** How many of the mapped items are of an agent. */
  ghost function PlayersOf(m: map<int, CServerUserItem>, keys: set<int>, agentId: int): set<int>
    reads m.Values
  {
    set k | k in keys && k in m && m[k].agentId == agentId
  }

  function CountOf(counts: map<int, int>, a: int): int {
    if a in counts then counts[a] else 0
  }

  class CServerUserManager {
    var m_UserMap: map<int, CServerUserItem>
    var m_UsedUserItemList: seq<CServerUserItem>
    var m_FreeUserItemList: seq<CServerUserItem>

    /** No item is in both lists, or twice in one. */
    ghost predicate Valid()
      reads this
    {
      Distinct(m_UsedUserItemList) && Distinct(m_FreeUserItemList) && Apart(m_UsedUserItemList, m_FreeUserItemList)
    }

    /** Every id that is found leads to an item in use that carries that id. */
    ghost predicate Settled()
      reads this, m_UserMap.Values
    {
      forall k | k in m_UserMap :: m_UserMap[k] in m_UsedUserItemList && m_UserMap[k].userId == k && FitsInt32(k)
    }

    constructor ()
      ensures Valid() && Settled() && m_UserMap == map[]
      ensures m_UsedUserItemList == [] && m_FreeUserItemList == []
    {
      m_UserMap, m_UsedUserItemList, m_FreeUserItemList := map[], [], [];
    }

    ghost function Items(): set<object>
      reads this
    {
      (set x | x in m_UsedUserItemList) + (set x | x in m_FreeUserItemList)
    }

    ghost function Recyclable(): set<object>
      reads this
    {
      if |m_FreeUserItemList| > 0 then {m_FreeUserItemList[|m_FreeUserItemList| - 1]} else {}
    }

    method GetUserItem(userId: int) returns (item: CServerUserItem)
      requires Valid()
      modifies this, Recyclable()
      ensures Valid()
      ensures item !in old(m_UsedUserItemList) && item.userId == 0
      ensures m_UsedUserItemList == old(m_UsedUserItemList) + [item]
      ensures m_UserMap == old(m_UserMap)[userId := item]
      ensures if old(m_FreeUserItemList) == [] then
                fresh(item) && m_FreeUserItemList == []
              else
                m_FreeUserItemList + [item] == old(m_FreeUserItemList)
    {
      if |m_FreeUserItemList| > 0 {
        var last := |m_FreeUserItemList| - 1;
        item := m_FreeUserItemList[last];
        WithoutDistinct(m_FreeUserItemList, last);
        assert Without(m_FreeUserItemList, last) == m_FreeUserItemList[..last];
        m_FreeUserItemList := m_FreeUserItemList[..last];
        item.ResetUserItem();
      } else {
        item := new CServerUserItem();
      }
      AppendDistinct(m_UsedUserItemList, item);
      m_UsedUserItemList := m_UsedUserItemList + [item];
      m_UserMap := m_UserMap[userId := item];
    }

    method FindUserItem(userId: int) returns (item: CServerUserItem?)
      ensures item == if userId in m_UserMap then m_UserMap[userId] else null
      ensures Valid() && Settled() && item != null ==>
                item in m_UsedUserItemList && item !in m_FreeUserItemList && item.userId == userId
    {
      item := null;
      if userId in m_UserMap {
        item := m_UserMap[userId];
      }
    }

    /** What entering the room does with the manager: fetch an item for the id, then store the id in
        it. An id that fits 32 bits keeps the map settled, also when it was fetched before. */
    method EnterRoom(userId: int, agentId: int) returns (item: CServerUserItem)
      requires Valid()
      modifies this, Recyclable()
      ensures Valid() && (old(Settled()) && FitsInt32(userId) ==> Settled())
      ensures userId in m_UserMap && m_UserMap[userId] == item && item.userId == userId && item.agentId == agentId
      ensures m_UsedUserItemList == old(m_UsedUserItemList) + [item] && item !in old(m_UsedUserItemList)
      ensures m_UserMap == old(m_UserMap)[userId := item]
      ensures if old(m_FreeUserItemList) == [] then
                fresh(item) && m_FreeUserItemList == []
              else
                m_FreeUserItemList + [item] == old(m_FreeUserItemList)
    {
      item := GetUserItem(userId);
      item.SetUserBaseInfo(userId, agentId);
    }

    /** The id that leaves the map is the item's own cut to 32 bits. */
    method DeleteUserItem(item: CServerUserItem?) returns (ok: bool)
      requires Valid()
      modifies this, item
      ensures Valid()
      ensures ok <==> item in old(m_UsedUserItemList)
      ensures !ok ==>
                && m_UserMap == old(m_UserMap) && m_UsedUserItemList == old(m_UsedUserItemList)
                && m_FreeUserItemList == old(m_FreeUserItemList)
      ensures ok ==>
                && m_UserMap == old(m_UserMap) - {ToInt32(old(item.userId))}
                && m_FreeUserItemList == old(m_FreeUserItemList) + [item]
                && (exists i | 0 <= i < |old(m_UsedUserItemList)| ::
                      old(m_UsedUserItemList)[i] == item && m_UsedUserItemList == Without(old(m_UsedUserItemList), i))
                && (forall x :: x in m_UsedUserItemList <==> x in old(m_UsedUserItemList) && x != item)
                && item.userId == 0
      ensures old(Settled()) ==> Settled()
    {
      if item == null {
        return false;
      }
      var userId := ToInt32(item.userId);
      for i := 0 to |m_UsedUserItemList|
        invariant m_UserMap == old(m_UserMap) && m_UsedUserItemList == old(m_UsedUserItemList)
        invariant m_FreeUserItemList == old(m_FreeUserItemList)
        invariant item !in m_UsedUserItemList[..i]
      {
        if m_UsedUserItemList[i] == item {
          AppendDistinct(m_FreeUserItemList, item);
          WithoutDistinct(m_UsedUserItemList, i);
          m_FreeUserItemList := m_FreeUserItemList + [item];
          m_UsedUserItemList := Without(m_UsedUserItemList, i);
          m_UserMap := m_UserMap - {userId};
          item.ResetUserItem();
          return true;
        }
      }
      ok := false;
    }

    /** Adds one to its agent's count for every mapped item. */
    method GetAgentPlayersMap(agentPlayers: map<int, int>) returns (counts: map<int, int>)
      ensures forall a :: CountOf(counts, a) == CountOf(agentPlayers, a) + |PlayersOf(m_UserMap, m_UserMap.Keys, a)|
    {
      counts := agentPlayers;
      var todo := m_UserMap.Keys;
      assert forall a :: PlayersOf(m_UserMap, m_UserMap.Keys - todo, a) == {};
      while todo != {}
        invariant todo <= m_UserMap.Keys
        invariant forall a :: CountOf(counts, a) == CountOf(agentPlayers, a) + |PlayersOf(m_UserMap, m_UserMap.Keys - todo, a)|
      {
        SetSums.Inhabited(todo);
        var k :| k in todo;
        var agentId := m_UserMap[k].agentId;
        OneMorePlayer(m_UserMap, m_UserMap.Keys - todo, k);
        assert m_UserMap.Keys - (todo - {k}) == m_UserMap.Keys - todo + {k};
        counts := counts[agentId := if agentId in counts then counts[agentId] + 1 else 1];
        todo := todo - {k};
      }
      assert m_UserMap.Keys - todo == m_UserMap.Keys;
    }
  }

  lemma OneMorePlayer(m: map<int, CServerUserItem>, done: set<int>, k: int)
    requires k in m && k !in done
    ensures forall a :: |PlayersOf(m, done + {k}, a)| == |PlayersOf(m, done, a)| + if m[k].agentId == a then 1 else 0
  {
    forall a
      ensures |PlayersOf(m, done + {k}, a)| == |PlayersOf(m, done, a)| + if m[k].agentId == a then 1 else 0
    {
      assert PlayersOf(m, done + {k}, a) == PlayersOf(m, done, a) + if m[k].agentId == a then {k} else {};
    }
  }

  // ---- Runs, without the items ----

  /** What the room does: a player enters, or the item at a place of the used list is given back. */
  datatype Op = Enter(userId: int, agentId: int) | Leave(place: nat)

  /** The fetch that operation number `op` made, for an id. */
  datatype Visit = Visit(op: nat, userId: int)

  /** The fetches not yet given back, in the order of the used list, and the fetch each id leads to. */
  datatype Ledger = Ledger(used: seq<Visit>, last: map<int, nat>)

  function Noted(l: Ledger, op: Op, e: nat): Ledger {
    match op
    case Enter(userId, _) => Ledger(l.used + [Visit(e, userId)], l.last[userId := e])
    case Leave(place) =>
      if place < |l.used| then Ledger(Without(l.used, place), l.last - {ToInt32(l.used[place].userId)}) else l
  }

  function LedgerOf(ops: seq<Op>): Ledger {
    if ops == [] then Ledger([], map[])
    else Noted(LedgerOf(ops[..|ops| - 1]), ops[|ops| - 1], |ops| - 1)
  }

  ghost predicate Enters(op: Op, k: int) {
    op.Enter? && op.userId == k
  }

  /** The operation changes what id k leads to: a fetch for k, or the return of an item whose id is
      k once it is cut to 32 bits. */
  ghost predicate Touches(l: Ledger, op: Op, k: int) {
    Enters(op, k) || (op.Leave? && op.place < |l.used| && ToInt32(l.used[op.place].userId) == k)
  }

  ghost predicate UntouchedSince(ops: seq<Op>, e: nat, k: int) {
    forall f | e < f < |ops| :: !Touches(LedgerOf(ops[..f]), ops[f], k)
  }

  lemma LedgerStep(ops: seq<Op>)
    requires ops != []
    ensures LedgerOf(ops) == Noted(LedgerOf(ops[..|ops| - 1]), ops[|ops| - 1], |ops| - 1)
    ensures forall f | 0 <= f < |ops| :: ops[..|ops| - 1][..f] == ops[..f]
  {
  }

  ghost predicate Leads(l: Ledger, k: int, e: nat) {
    k in l.last && l.last[k] == e
  }

  lemma NotedLeads(l: Ledger, op: Op, n: nat, k: int, e: nat)
    ensures Leads(Noted(l, op, n), k, e) <==> if Touches(l, op, k) then Enters(op, k) && e == n else Leads(l, k, e)
  {
  }

  lemma UntouchedStep(ops: seq<Op>, e: nat, k: int)
    requires e < |ops| - 1
    ensures var n := |ops| - 1;
            UntouchedSince(ops, e, k) <==> UntouchedSince(ops[..n], e, k) && !Touches(LedgerOf(ops[..n]), ops[n], k)
  {
    hide LedgerOf, Touches;
    var n := |ops| - 1;
    assert forall f | e < f < n :: ops[..n][..f] == ops[..f] && ops[..n][f] == ops[f];
  }

  /** An id leads to fetch e exactly when e was made for it and nothing has touched it since. */
  lemma {:induction false} LastIs(ops: seq<Op>, k: int, e: nat)
    ensures Leads(LedgerOf(ops), k, e) <==> e < |ops| && Enters(ops[e], k) && UntouchedSince(ops, e, k)
  {
    if ops != [] {
      var n := |ops| - 1;
      LedgerStep(ops);
      hide LedgerOf, Noted, Touches;
      LastIs(ops[..n], k, e);
      NotedLeads(LedgerOf(ops[..n]), ops[n], n, k, e);
      if e < n {
        UntouchedStep(ops, e, k);
      } else if e == n {
        assert Enters(ops[n], k) ==> Touches(LedgerOf(ops[..n]), ops[n], k) by {
          EntersTouches(LedgerOf(ops[..n]), ops[n], k);
        }
      }
    }
  }

  lemma EntersTouches(l: Ledger, op: Op, k: int)
    ensures Enters(op, k) ==> Touches(l, op, k)
  {
  }

  /** Every fetch in use is one of the operations, made for its id, and is there once. */
  ghost predicate Orderly(l: Ledger, e: nat) {
    && (forall i | 0 <= i < |l.used| :: l.used[i].op < e)
    && (forall i, j | 0 <= i < j < |l.used| :: l.used[i].op != l.used[j].op)
    && (forall k | k in l.last :: l.last[k] < e)
    && (forall i, k | 0 <= i < |l.used| && k in l.last && l.used[i].op == l.last[k] :: l.used[i].userId == k)
  }

  lemma {:induction false} LedgerOrderly(ops: seq<Op>)
    ensures Orderly(LedgerOf(ops), |ops|)
  {
    if ops != [] {
      LedgerOrderly(ops[..|ops| - 1]);
      NotedOrderly(LedgerOf(ops[..|ops| - 1]), ops[|ops| - 1], |ops| - 1);
    }
  }

  lemma NotedOrderly(l: Ledger, op: Op, e: nat)
    requires Orderly(l, e)
    ensures Orderly(Noted(l, op, e), e + 1)
  {
  }

  ghost predicate InUse(l: Ledger, e: nat) {
    exists i | 0 <= i < |l.used| :: l.used[i].op == e
  }

  // ---- Which ids lead to a recycled item ----

  ghost predicate Recycled(l: Ledger, k: int) {
    k in l.last && !InUse(l, l.last[k])
  }

  /** The last fetch for an id. */
  function LastEntered(ops: seq<Op>, k: int): Option<nat> {
    if ops == [] then None
    else if ops[|ops| - 1].Enter? && ops[|ops| - 1].userId == k then Some(|ops| - 1)
    else LastEntered(ops[..|ops| - 1], k)
  }

  /** An id leads to an item that was given back exactly when it does not fit 32 bits and the item
      last fetched for it was given back. */
  lemma {:induction false} RecycledExactly(ops: seq<Op>, k: int)
    ensures Recycled(LedgerOf(ops), k) <==>
      !FitsInt32(k) && LastEntered(ops, k).Some? && !InUse(LedgerOf(ops), LastEntered(ops, k).value)
  {
    if FitsInt32(k) {
      FittingInUse(ops, k);
    } else {
      WideStays(ops, k);
    }
  }

  lemma {:induction false} FittingInUse(ops: seq<Op>, k: int)
    requires FitsInt32(k)
    ensures !Recycled(LedgerOf(ops), k)
  {
    if ops != [] {
      var n := |ops| - 1;
      FittingInUse(ops[..n], k);
      LedgerOrderly(ops[..n]);
      FittingStep(LedgerOf(ops[..n]), ops[n], n, k);
    }
  }

  lemma FittingStep(l: Ledger, op: Op, e: nat, k: int)
    requires FitsInt32(k) && Orderly(l, e) && !Recycled(l, k)
    ensures !Recycled(Noted(l, op, e), k)
  {
    var l' := Noted(l, op, e);
    if k in l'.last {
      if Enters(op, k) {
        assert l'.used[|l.used|].op == l'.last[k];
      } else {
        var i :| 0 <= i < |l.used| && l.used[i].op == l.last[k];
        var j := if op.Leave? && op.place < |l.used| && op.place < i then i - 1 else i;
        assert l'.used[j] == l.used[i];
      }
    }
  }

  lemma {:induction false} WideStays(ops: seq<Op>, k: int)
    requires !FitsInt32(k)
    ensures k in LedgerOf(ops).last <==> LastEntered(ops, k).Some?
    ensures k in LedgerOf(ops).last ==> LedgerOf(ops).last[k] == LastEntered(ops, k).value
  {
    if ops != [] {
      WideStays(ops[..|ops| - 1], k);
    }
  }

  // ---- When every item in use is found ----

  ghost predicate Found(l: Ledger, i: nat)
    requires i < |l.used|
  {
    Leads(l, l.used[i].userId, l.used[i].op)
  }

  ghost predicate AllFound(l: Ledger) {
    forall i | 0 <= i < |l.used| :: Found(l, i)
  }

  /** An item in use is found by its id exactly when nothing has touched the id since its fetch. */
  lemma FoundExactly(ops: seq<Op>, i: nat)
    requires i < |LedgerOf(ops).used|
    ensures var v := LedgerOf(ops).used[i];
            Found(LedgerOf(ops), i) <==>
              v.op < |ops| && Enters(ops[v.op], v.userId) && UntouchedSince(ops, v.op, v.userId)
  {
    LastIs(ops, LedgerOf(ops).used[i].userId, LedgerOf(ops).used[i].op);
  }

  ghost predicate IdInUse(l: Ledger, k: int) {
    exists i | 0 <= i < |l.used| :: l.used[i].userId == k
  }

  /** A fetch for an id that is in use hides the item before; and the return of a wide id unmaps the
      player whose id is what is left of it. */
  ghost predicate Considerate(l: Ledger, op: Op) {
    match op
    case Enter(userId, _) => !IdInUse(l, userId)
    case Leave(place) =>
      place < |l.used| ==> FitsInt32(l.used[place].userId) || !IdInUse(l, ToInt32(l.used[place].userId))
  }

  lemma StepFinds(l: Ledger, op: Op, e: nat)
    requires Orderly(l, e) && AllFound(l)
    ensures AllFound(Noted(l, op, e)) <==> Considerate(l, op)
  {
    var l' := Noted(l, op, e);
    match op
    case Enter(userId, _) =>
      EnterFinds(l, userId, e, l');
    case Leave(place) =>
      if place < |l.used| {
        LeaveFinds(l, place, l');
      }
  }

  lemma EnterFinds(l: Ledger, userId: int, e: nat, l': Ledger)
    requires Orderly(l, e) && AllFound(l) && l' == Ledger(l.used + [Visit(e, userId)], l.last[userId := e])
    ensures AllFound(l') <==> !IdInUse(l, userId)
  {
    forall i | 0 <= i < |l.used|
      ensures Found(l', i) <==> l.used[i].userId != userId
    {
      assert l'.used[i] == l.used[i] && Found(l, i);
    }
    assert Found(l', |l.used|);
    assert AllFound(l') ==> forall i | 0 <= i < |l.used| :: Found(l', i);
  }

  lemma LeaveFinds(l: Ledger, place: nat, l': Ledger)
    requires place < |l.used| && AllFound(l)
    requires forall i, j | 0 <= i < j < |l.used| :: l.used[i].op != l.used[j].op
    requires l' == Ledger(Without(l.used, place), l.last - {ToInt32(l.used[place].userId)})
    ensures AllFound(l') <==> FitsInt32(l.used[place].userId) || !IdInUse(l, ToInt32(l.used[place].userId))
  {
    var c := ToInt32(l.used[place].userId);
    forall i | 0 <= i < |l.used| && i != place
      ensures l.used[i].userId != l.used[place].userId
      ensures var j := if i < place then i else i - 1;
              l'.used[j] == l.used[i] && (Found(l', j) <==> l.used[i].userId != c)
    {
      assert Found(l, i) && Found(l, place);
    }
    if AllFound(l') && !FitsInt32(l.used[place].userId) {
      forall i | 0 <= i < |l.used|
        ensures l.used[i].userId != c
      {
        assert i != place ==> Found(l', if i < place then i else i - 1);
      }
    }
    if FitsInt32(l.used[place].userId) || !IdInUse(l, c) {
      forall j | 0 <= j < |l'.used|
        ensures Found(l', j)
      {
        var i := if j < place then j else j + 1;
        assert l.used[i].userId != c;
      }
    }
  }

  ghost predicate AlwaysFound(ops: seq<Op>) {
    forall f | 0 <= f <= |ops| :: AllFound(LedgerOf(ops[..f]))
  }

  ghost predicate AlwaysConsiderate(ops: seq<Op>) {
    forall f | 0 <= f < |ops| :: Considerate(LedgerOf(ops[..f]), ops[f])
  }

  lemma AlwaysFoundStep(ops: seq<Op>)
    requires ops != []
    ensures AlwaysFound(ops) <==> AlwaysFound(ops[..|ops| - 1]) && AllFound(LedgerOf(ops))
  {
    hide LedgerOf, AllFound;
    var n := |ops| - 1;
    assert forall f | 0 <= f <= n :: ops[..n][..f] == ops[..f];
    assert ops[..n + 1] == ops;
  }

  lemma AlwaysConsiderateStep(ops: seq<Op>)
    requires ops != []
    ensures var n := |ops| - 1;
            AlwaysConsiderate(ops) <==> AlwaysConsiderate(ops[..n]) && Considerate(LedgerOf(ops[..n]), ops[n])
  {
    hide LedgerOf, Considerate;
    var n := |ops| - 1;
    assert forall f | 0 <= f < n :: ops[..n][..f] == ops[..f] && ops[..n][f] == ops[f];
  }

  /** All through a run every item in use is found exactly when nobody enters under an id in use, and
      no wide id is given back while the id it is cut to is in use. */
  lemma {:induction false} AlwaysFoundExactly(ops: seq<Op>)
    ensures AlwaysFound(ops) <==> AlwaysConsiderate(ops)
  {
    if ops == [] {
      assert ops[..0] == [];
    } else {
      var n := |ops| - 1;
      LedgerStep(ops);
      hide *;
      AlwaysFoundExactly(ops[..n]);
      AlwaysFoundStep(ops);
      AlwaysConsiderateStep(ops);
      if AlwaysFound(ops[..n]) {
        LedgerOrderly(ops[..n]);
        FoundAtEnd(ops[..n]);
        StepFinds(LedgerOf(ops[..n]), ops[n], n);
      }
    }
  }

  lemma FoundAtEnd(ops: seq<Op>)
    requires AlwaysFound(ops)
    ensures AllFound(LedgerOf(ops))
  {
    assert ops[..|ops|] == ops;
  }

  /** Two runs after which a player in use is not found: player 1 entered twice, and the second item
      was given back; and a wide id was given back that is cut to the id of player 5. */
  lemma HiddenPlayers()
    ensures var l := LedgerOf([Enter(1, 0), Enter(1, 0), Leave(1)]); l.used == [Visit(0, 1)] && !Found(l, 0)
    ensures var l := LedgerOf([Enter(0x1_0000_0005, 0), Enter(5, 0), Leave(0)]);
            l.used == [Visit(1, 5)] && !Found(l, 0)
  {
    TwoEntered(1, 1, 1);
    TwoEntered(0x1_0000_0005, 5, 0);
  }

  lemma TwoEntered(j: int, k: int, place: nat)
    requires place < 2
    ensures LedgerOf([Enter(j, 0), Enter(k, 0), Leave(place)])
         == Noted(Ledger([Visit(0, j), Visit(1, k)], map[j := 0][k := 1]), Leave(place), 2)
  {
    var ops := [Enter(j, 0), Enter(k, 0), Leave(place)];
    assert ops[..2] == [Enter(j, 0), Enter(k, 0)] && ops[..2][..1] == [Enter(j, 0)];
    LedgerStep(ops);
    LedgerStep(ops[..2]);
    LedgerStep(ops[..2][..1]);
    assert LedgerOf(ops[..2][..1]) == Ledger([Visit(0, j)], map[j := 0]);
  }

  // ---- Runs ----

  /** Ids lead to the items of their fetches, and an item whose fetch was given back serves nobody
      under that id. */
  ghost predicate Serves(used: seq<CServerUserItem>, free: seq<CServerUserItem>, users: map<int, CServerUserItem>,
                         l: Ledger)
  {
    && |used| == |l.used| && users.Keys == l.last.Keys
    && (forall k, i | k in users && 0 <= i < |used| && l.used[i].op == l.last[k] :: used[i] == users[k])
    && (forall k, i | k in users && 0 <= i < |used| && used[i] == users[k] && l.used[i].op != l.last[k] ::
          l.used[i].userId != k)
    && (forall k | k in users :: users[k] in used || users[k] in free)
  }

  /** The room is as the ledger says. */
  ghost predicate Follows(room: CServerUserManager, l: Ledger)
    reads room, room.m_UsedUserItemList
  {
    && Serves(room.m_UsedUserItemList, room.m_FreeUserItemList, room.m_UserMap, l)
    && forall i | 0 <= i < |room.m_UsedUserItemList| :: room.m_UsedUserItemList[i].userId == l.used[i].userId
  }

  lemma ServesLength(used: seq<CServerUserItem>, free: seq<CServerUserItem>, users: map<int, CServerUserItem>, l: Ledger)
    requires Serves(used, free, users, l)
    ensures |used| == |l.used|
  {
  }

  lemma ServesAfterLeave(used: seq<CServerUserItem>, free: seq<CServerUserItem>, users: map<int, CServerUserItem>,
                         l: Ledger, e: nat, place: nat)
    requires Serves(used, free, users, l) && Distinct(used) && place < |used|
    ensures place < |l.used|
    ensures Serves(Without(used, place), free + [used[place]], users - {ToInt32(l.used[place].userId)},
                   Noted(l, Leave(place), e))
  {
    WithoutDistinct(used, place);
    var used', l' := Without(used, place), Noted(l, Leave(place), e);
    forall i | 0 <= i < |used'|
      ensures var b := if i < place then i else i + 1; used'[i] == used[b] && l'.used[i] == l.used[b]
    {
    }
  }

  method FollowEnter(room: CServerUserManager, ghost l: Ledger, ghost e: nat, userId: int, agentId: int)
    returns (item: CServerUserItem)
    requires room.Valid() && Follows(room, l) && Orderly(l, e)
    modifies room, room.Recyclable()
    ensures room.Valid() && Follows(room, Noted(l, Enter(userId, agentId), e))
    ensures old(room.Settled()) && FitsInt32(userId) ==> room.Settled()
    ensures if old(room.m_FreeUserItemList) == [] then
              fresh(item) && room.m_FreeUserItemList == []
            else
              room.m_FreeUserItemList + [item] == old(room.m_FreeUserItemList)
    ensures room.m_UsedUserItemList == old(room.m_UsedUserItemList) + [item]
  {
    item := room.EnterRoom(userId, agentId);
  }

  method FollowLeave(room: CServerUserManager, ghost l: Ledger, ghost e: nat, place: nat)
    requires room.Valid() && Follows(room, l) && Orderly(l, e) && place < |room.m_UsedUserItemList|
    modifies room, room.m_UsedUserItemList[place]
    ensures room.Valid() && Follows(room, Noted(l, Leave(place), e))
    ensures old(room.Settled()) ==> room.Settled()
    ensures room.m_FreeUserItemList == old(room.m_FreeUserItemList) + [old(room.m_UsedUserItemList)[place]]
    ensures forall x | x in room.m_UsedUserItemList :: x in old(room.m_UsedUserItemList)
  {
    var item := room.m_UsedUserItemList[place];
    ServesLength(room.m_UsedUserItemList, room.m_FreeUserItemList, room.m_UserMap, l);
    ServesAfterLeave(room.m_UsedUserItemList, room.m_FreeUserItemList, room.m_UserMap, l, e, place);
    hide Serves, Orderly, ToInt32;
    var _ := room.DeleteUserItem(item);
    assert room.m_UsedUserItemList == Without(old(room.m_UsedUserItemList), place);
    assert item !in room.m_UsedUserItemList;
  }

  lemma NobodyLeaves(room: CServerUserManager, l: Ledger, e: nat, place: nat)
    requires Follows(room, l) && place >= |room.m_UsedUserItemList|
    ensures Noted(l, Leave(place), e) == l
  {
  }

  method PlayOp(room: CServerUserManager, ghost l: Ledger, ghost e: nat, op: Op)
    requires room.Valid() && Follows(room, l) && Orderly(l, e)
    modifies room, room.Items()
    ensures room.Valid() && Follows(room, Noted(l, op, e))
    ensures old(room.Settled()) && (op.Enter? ==> FitsInt32(op.userId)) ==> room.Settled()
    ensures fresh(room.Items() - old(room.Items()))
  {
    hide Noted, Follows, Orderly;
    ghost var free := room.m_FreeUserItemList;
    match op
    case Enter(userId, agentId) =>
      assert free != [] ==> free[|free| - 1] in free;
      var entered := FollowEnter(room, l, e, userId, agentId);
      assert free != [] ==> free == room.m_FreeUserItemList + [entered];
    case Leave(place) =>
      if place < |room.m_UsedUserItemList| {
        assert room.m_UsedUserItemList[place] in room.m_UsedUserItemList;
        FollowLeave(room, l, e, place);
      } else {
        NobodyLeaves(room, l, e, place);
      }
  }

  /** A new room in which the operations happen one after the other. */
  method Play(ops: seq<Op>) returns (room: CServerUserManager)
    ensures fresh(room) && room.Valid() && Follows(room, LedgerOf(ops))
    ensures (forall op | op in ops && op.Enter? :: FitsInt32(op.userId)) ==> room.Settled()
  {
    room := new CServerUserManager();
    assert Follows(room, LedgerOf(ops[..0]));
    assert room.Items() == {};
    hide *;
    for i := 0 to |ops|
      invariant fresh(room) && room.Valid() && Follows(room, LedgerOf(ops[..i]))
      invariant (forall op | op in ops && op.Enter? :: FitsInt32(op.userId)) ==> room.Settled()
      invariant fresh(room.Items())
    {
      LedgerOrderly(ops[..i]);
      LedgerStep(ops[..i + 1]);
      assert ops[..i + 1][..i] == ops[..i] && ops[..i + 1][i] == ops[i];
      assert ops[i] in ops;
      PlayOp(room, LedgerOf(ops[..i]), i, ops[i]);
    }
    assert ops[..|ops|] == ops;
  }

  lemma FittingInUseOf(ops: seq<Op>, k: int)
    ensures FitsInt32(k) ==> !Recycled(LedgerOf(ops), k)
  {
    if FitsInt32(k) {
      FittingInUse(ops, k);
    }
  }

  /** What the map of a room that follows its ledger answers: the item in use of the fetch that the id
      leads to; or, where that was given back, an item that is free or somebody else's. */
  lemma RoomAnswers(room: CServerUserManager, l: Ledger, e: nat, asked: int)
    requires room.Valid() && Follows(room, l) && Orderly(l, e)
    ensures asked in room.m_UserMap <==> asked in l.last
    ensures asked in l.last && !Recycled(l, asked) ==>
              var item := room.m_UserMap[asked];
              item in room.m_UsedUserItemList && item !in room.m_FreeUserItemList && item.userId == asked
    ensures asked in l.last && Recycled(l, asked) ==>
              var item := room.m_UserMap[asked];
              item in room.m_FreeUserItemList || (item in room.m_UsedUserItemList && item.userId != asked)
    ensures forall i | 0 <= i < |room.m_UsedUserItemList| ::
              var k := room.m_UsedUserItemList[i].userId;
              Found(l, i) <==> k in room.m_UserMap && room.m_UserMap[k] == room.m_UsedUserItemList[i]
  {
  }

  /** After any run, whatever the ids: nothing is found where the ledger has no entry; the item in use
      where the fetch is not given back; and a recycled one where it is. An id that fits 32 bits never
      leads to a recycled item. */
  method RunRoom(ops: seq<Op>, asked: int) returns (room: CServerUserManager, item: CServerUserItem?)
    ensures fresh(room) && room.Valid() && Follows(room, LedgerOf(ops))
    ensures (forall op | op in ops && op.Enter? :: FitsInt32(op.userId)) ==> room.Settled()
    ensures item == null <==> asked !in LedgerOf(ops).last
    ensures item != null && (FitsInt32(asked) || !Recycled(LedgerOf(ops), asked)) ==>
              item in room.m_UsedUserItemList && item !in room.m_FreeUserItemList && item.userId == asked
    ensures item != null && Recycled(LedgerOf(ops), asked) ==>
              item in room.m_FreeUserItemList || (item in room.m_UsedUserItemList && item.userId != asked)
    ensures forall i | 0 <= i < |room.m_UsedUserItemList| ::
              var k := room.m_UsedUserItemList[i].userId;
              Found(LedgerOf(ops), i) <==> k in room.m_UserMap && room.m_UserMap[k] == room.m_UsedUserItemList[i]
  {
    room := Play(ops);
    assert |room.m_UsedUserItemList| == |LedgerOf(ops).used|;
    hide *;
    item := room.FindUserItem(asked);
    FittingInUseOf(ops, asked);
    LedgerOrderly(ops);
    RoomAnswers(room, LedgerOf(ops), |ops|, asked);
  }

  /** With a wider id the map keeps the item after it was given back: asking for the id yields an
      item of the free list, which the next player will get as well. */
  method WideIdRecycled(userId: int, agentId: int) returns (room: CServerUserManager, item: CServerUserItem?)
    requires !FitsInt32(userId)
    ensures item != null && item in room.m_FreeUserItemList && item !in room.m_UsedUserItemList && item.userId != userId
  {
    room := new CServerUserManager();
    var entered := room.EnterRoom(userId, agentId);
    var _ := room.DeleteUserItem(entered);
    item := room.FindUserItem(userId);
  }
}
