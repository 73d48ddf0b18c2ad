/** GameTableManager.cpp: the tables of a room, each free or in use. */
module TableManager {
  import opened Lists

  const INVALID_TABLE := 0xFFFF

  class CTableFrame {
    const tableId: nat
    const maxPlayerCount: int
    var playerCount: int

    constructor (tableId: nat, maxPlayerCount: int)
      ensures this.tableId == tableId && this.maxPlayerCount == maxPlayerCount && playerCount == 0
    {
      this.tableId, this.maxPlayerCount, playerCount := tableId, maxPlayerCount, 0;
    }
  }

  /** What a player looks for: not one table, or only one, and with a seat free where the table
      lets the player in (the tables in `joinable`). */
  predicate Suits(t: CTableFrame, exceptId: nat, enterId: nat, joinable: set<CTableFrame>)
    reads t
  {
    && (exceptId == INVALID_TABLE || t.tableId != exceptId)
    && (enterId == INVALID_TABLE || t.tableId == enterId)
    && t.playerCount < t.maxPlayerCount && t in joinable
  }

  /** The first of the tables that suits. */
  ghost predicate FirstSuited(tables: seq<CTableFrame>, t: CTableFrame, exceptId: nat, enterId: nat,
                              joinable: set<CTableFrame>)
    reads tables
  {
    exists i | 0 <= i < |tables| ::
      && tables[i] == t && Suits(t, exceptId, enterId, joinable)
      && forall k | 0 <= k < i :: !Suits(tables[k], exceptId, enterId, joinable)
  }

  ghost predicate SomeSuits(tables: seq<CTableFrame>, exceptId: nat, enterId: nat, joinable: set<CTableFrame>)
    reads tables
  {
    exists t | t in tables :: Suits(t, exceptId, enterId, joinable)
  }

  ghost predicate SomeHasId(tables: seq<CTableFrame>, tableId: nat) {
    exists t | t in tables :: t.tableId == tableId
  }

  /** A free table has gone to the end of those in use: the first with the id asked for, or the
      first of all where no id is asked for or none has it. */
  ghost predicate Taken(used: seq<CTableFrame>, free: seq<CTableFrame>, usedAfter: seq<CTableFrame>,
                        freeAfter: seq<CTableFrame>, t: CTableFrame, enterId: nat) {
    && t !in used && usedAfter == used + [t]
    && exists i | 0 <= i < |free| ::
      && free[i] == t && freeAfter == Without(free, i)
      && if enterId != INVALID_TABLE && SomeHasId(free, enterId) then
           t.tableId == enterId && forall k | 0 <= k < i :: free[k].tableId != enterId
         else
           i == 0
  }

  /** The first table with the id is gone. */
  ghost predicate FirstRemoved(tables: seq<CTableFrame>, left: seq<CTableFrame>, tableId: nat) {
    exists i | 0 <= i < |tables| ::
      && tables[i].tableId == tableId && left == Without(tables, i)
      && forall k | 0 <= k < i :: tables[k].tableId != tableId
  }

  class CGameTableManager {
    var m_vecGameTable: seq<CTableFrame>
    var m_listUsedTable: seq<CTableFrame>
    var m_listFreeTable: seq<CTableFrame>

    /** Every table is in exactly one of the two lists, once. */
    ghost predicate Divided()
      reads this
    {
      Divides(m_vecGameTable, m_listUsedTable, m_listFreeTable)
    }

    /** Table i has id i. */
    ghost predicate Numbered()
      reads this
    {
      forall i | 0 <= i < |m_vecGameTable| :: m_vecGameTable[i].tableId == i
    }

    ghost predicate Valid()
      reads this
    {
      Divided() && Numbered()
    }

    constructor ()
      ensures Valid() && m_vecGameTable == m_listUsedTable == m_listFreeTable == []
    {
      m_vecGameTable, m_listUsedTable, m_listFreeTable := [], [], [];
    }

    /** `made` is how many tables get their sink before one fails. The ids of the added tables start
        from zero, so tables stay numbered only when there were none before. */
    method InitAllTable(tableCount: nat, made: nat, maxPlayerCount: int)
      requires Divided()
      modifies this
      ensures Divided() && m_listUsedTable == old(m_listUsedTable)
      ensures |m_vecGameTable| == |old(m_vecGameTable)| + if made < tableCount then made else tableCount
      ensures m_vecGameTable[..|old(m_vecGameTable)|] == old(m_vecGameTable)
      ensures m_listFreeTable == old(m_listFreeTable) + m_vecGameTable[|old(m_vecGameTable)|..]
      ensures forall i | |old(m_vecGameTable)| <= i < |m_vecGameTable| ::
                && fresh(m_vecGameTable[i]) && m_vecGameTable[i].tableId == i - |old(m_vecGameTable)|
                && m_vecGameTable[i].maxPlayerCount == maxPlayerCount && m_vecGameTable[i].playerCount == 0
      ensures Numbered() <==> old(Numbered()) && (old(m_vecGameTable) == [] || made == 0 || tableCount == 0)
    {
      ghost var n := |m_vecGameTable|;
      for idx := 0 to tableCount
        invariant Divided() && m_listUsedTable == old(m_listUsedTable)
        invariant |m_vecGameTable| == n + idx && idx <= made
        invariant m_vecGameTable[..n] == old(m_vecGameTable)
        invariant m_listFreeTable == old(m_listFreeTable) + m_vecGameTable[n..]
        invariant forall i | n <= i < n + idx ::
                    && fresh(m_vecGameTable[i]) && m_vecGameTable[i].tableId == i - n
                    && m_vecGameTable[i].maxPlayerCount == maxPlayerCount && m_vecGameTable[i].playerCount == 0
      {
        if idx >= made {
          break;
        }
        var table := new CTableFrame(idx, maxPlayerCount);
        AppendDistinct(m_listFreeTable, table);
        m_vecGameTable := m_vecGameTable + [table];
        m_listFreeTable := m_listFreeTable + [table];
      }
      assert forall i | 0 <= i < n :: m_vecGameTable[i] == m_vecGameTable[..n][i];
      assert |m_vecGameTable| > n ==> m_vecGameTable[n].tableId == 0;
    }

    /** The table at the position; in a numbered room, the table with the id. */
    method GetTable(tableId: nat) returns (table: CTableFrame?)
      ensures table == if tableId < |m_vecGameTable| then m_vecGameTable[tableId] else null
      ensures Numbered() && table != null ==> table.tableId == tableId && table in m_vecGameTable
      ensures Numbered() ==> (table == null <==> !SomeHasId(m_vecGameTable, tableId))
    {
      table := null;
      if tableId < |m_vecGameTable| {
        table := m_vecGameTable[tableId];
      }
    }

    /** A table with a given id is the only one. */
    lemma OneTable(t: CTableFrame, u: CTableFrame)
      requires Valid() && t in m_vecGameTable && u in m_vecGameTable && t.tableId == u.tableId
      ensures t == u
    {
      var i :| 0 <= i < |m_vecGameTable| && m_vecGameTable[i] == t;
      var k :| 0 <= k < |m_vecGameTable| && m_vecGameTable[k] == u;
    }

    method TakeFree(i: nat) returns (table: CTableFrame)
      requires Divided() && i < |m_listFreeTable|
      modifies this
      ensures Divided() && m_vecGameTable == old(m_vecGameTable) && table == old(m_listFreeTable)[i]
      ensures m_listUsedTable == old(m_listUsedTable) + [table]
      ensures m_listFreeTable == Without(old(m_listFreeTable), i)
    {
      table := m_listFreeTable[i];
      WithoutDistinct(m_listFreeTable, i);
      AppendDistinct(m_listUsedTable, table);
      m_listUsedTable := m_listUsedTable + [table];
      m_listFreeTable := Without(m_listFreeTable, i);
    }

    /** The first suitable table in use; else the free table asked for; else the free table that
        has waited longest, whatever its id. The last two clauses say when the answer is the table
        asked for, and when it is not the excepted one. */
    method FindNormalSuitTable(exceptId: nat, enterId: nat, joinable: set<CTableFrame>) returns (table: CTableFrame?)
      requires Divided()
      modifies this
      ensures Divided() && m_vecGameTable == old(m_vecGameTable)
      ensures table == null <==> old(m_listFreeTable == [] && !SomeSuits(m_listUsedTable, exceptId, enterId, joinable))
      ensures table == null || old(SomeSuits(m_listUsedTable, exceptId, enterId, joinable)) ==>
                m_listUsedTable == old(m_listUsedTable) && m_listFreeTable == old(m_listFreeTable)
      ensures table != null && old(SomeSuits(m_listUsedTable, exceptId, enterId, joinable)) ==>
                FirstSuited(old(m_listUsedTable), table, exceptId, enterId, joinable)
      ensures table != null && !old(SomeSuits(m_listUsedTable, exceptId, enterId, joinable)) ==>
                Taken(old(m_listUsedTable), old(m_listFreeTable), m_listUsedTable, m_listFreeTable, table, enterId)
      ensures enterId != INVALID_TABLE && table != null ==>
                (table.tableId == enterId <==>
                 || old(SomeSuits(m_listUsedTable, exceptId, enterId, joinable))
                 || SomeHasId(old(m_listFreeTable), enterId))
      ensures exceptId != INVALID_TABLE && table != null ==>
                (table.tableId != exceptId <==>
                 || old(SomeSuits(m_listUsedTable, exceptId, enterId, joinable))
                 || if enterId != INVALID_TABLE && SomeHasId(old(m_listFreeTable), enterId) then
                      enterId != exceptId
                    else
                      old(m_listFreeTable) != [] && old(m_listFreeTable)[0].tableId != exceptId)
    {
      for i := 0 to |m_listUsedTable|
        invariant m_vecGameTable == old(m_vecGameTable)
        invariant m_listUsedTable == old(m_listUsedTable) && m_listFreeTable == old(m_listFreeTable)
        invariant forall k | 0 <= k < i :: !Suits(m_listUsedTable[k], exceptId, enterId, joinable)
      {
        var t := m_listUsedTable[i];
        if INVALID_TABLE != exceptId && exceptId == t.tableId {
          continue;
        }
        if INVALID_TABLE != enterId && enterId != t.tableId {
          continue;
        }
        if t.playerCount < t.maxPlayerCount && t in joinable {
          assert FirstSuited(m_listUsedTable, t, exceptId, enterId, joinable);
          return t;
        }
      }
      table := TakeFreeTable(enterId);
    }

    method TakeFreeTable(enterId: nat) returns (table: CTableFrame?)
      requires Divided()
      modifies this
      ensures Divided() && m_vecGameTable == old(m_vecGameTable)
      ensures table == null <==> old(m_listFreeTable) == []
      ensures table == null ==> m_listUsedTable == old(m_listUsedTable) && m_listFreeTable == old(m_listFreeTable)
      ensures table != null ==>
                Taken(old(m_listUsedTable), old(m_listFreeTable), m_listUsedTable, m_listFreeTable, table, enterId)
    {
      if INVALID_TABLE != enterId {
        for i := 0 to |m_listFreeTable|
          invariant m_vecGameTable == old(m_vecGameTable)
          invariant m_listUsedTable == old(m_listUsedTable) && m_listFreeTable == old(m_listFreeTable)
          invariant forall k | 0 <= k < i :: m_listFreeTable[k].tableId != enterId
        {
          if m_listFreeTable[i].tableId == enterId {
            table := TakeFree(i);
            return;
          }
        }
      }
      if m_listFreeTable == [] {
        return null;
      }
      table := TakeFree(0);
    }

    /** The first table in use with this table's id goes out of use, and this table becomes free. In a
        numbered room they are the same. */
    method FreeNormalTable(table: CTableFrame)
      modifies this
      ensures m_vecGameTable == old(m_vecGameTable)
      ensures SomeHasId(old(m_listUsedTable), table.tableId) ==>
                && m_listFreeTable == old(m_listFreeTable) + [table]
                && FirstRemoved(old(m_listUsedTable), m_listUsedTable, table.tableId)
      ensures !SomeHasId(old(m_listUsedTable), table.tableId) ==>
                m_listFreeTable == old(m_listFreeTable) && m_listUsedTable == old(m_listUsedTable)
      ensures old(Valid()) && table in m_vecGameTable ==>
                && Valid() && table in m_listFreeTable
                && (SomeHasId(old(m_listUsedTable), table.tableId) <==> table in old(m_listUsedTable))
                && forall x :: x in m_listUsedTable <==> x in old(m_listUsedTable) && x != table
    {
      ghost var known := Valid() && table in m_vecGameTable;
      for i := 0 to |m_listUsedTable|
        invariant m_vecGameTable == old(m_vecGameTable)
        invariant m_listUsedTable == old(m_listUsedTable) && m_listFreeTable == old(m_listFreeTable)
        invariant forall k | 0 <= k < i :: m_listUsedTable[k].tableId != table.tableId
      {
        if m_listUsedTable[i].tableId == table.tableId {
          if known {
            OneTable(m_listUsedTable[i], table);
            WithoutDistinct(m_listUsedTable, i);
            AppendDistinct(m_listFreeTable, table);
          }
          m_listFreeTable := m_listFreeTable + [table];
          m_listUsedTable := Without(m_listUsedTable, i);
          break;
        }
      }
    }
  }

  // ---- Runs ----

  /** The loop of GameServer.cpp over a room that has just been made: whatever the tables let in,
      every one of them is in use afterwards. The id 0xFFFF would ask for any table. */
  method OpenTables(m: CGameTableManager, tableCount: nat, joinable: set<CTableFrame>)
    requires m.Valid() && m.m_listUsedTable == [] && m.m_listFreeTable == m.m_vecGameTable
    requires |m.m_vecGameTable| <= tableCount <= INVALID_TABLE
    modifies m
    ensures m.Valid() && m.m_vecGameTable == old(m.m_vecGameTable)
    ensures m.m_listUsedTable == m.m_vecGameTable && m.m_listFreeTable == []
  {
    var n := |m.m_vecGameTable|;
    for idx := 0 to tableCount
      invariant m.Valid() && m.m_vecGameTable == old(m.m_vecGameTable)
      invariant m.m_listUsedTable == m.m_vecGameTable[..if idx < n then idx else n]
      invariant m.m_listFreeTable == m.m_vecGameTable[if idx < n then idx else n..]
    {
      assert !SomeSuits(m.m_listUsedTable, INVALID_TABLE, idx, joinable);
      if idx < n {
        assert m.m_listFreeTable[0].tableId == idx;
      }
      var _ := m.FindNormalSuitTable(INVALID_TABLE, idx, joinable);
    }
  }

  /** Table 0 is in use and lets the player in no more: who asks for it gets table 1. */
  method AskedForZero() returns (table: CTableFrame?)
    ensures table != null && table.tableId == 1
  {
    var m := new CGameTableManager();
    m.InitAllTable(2, 2, 5);
    var zero, one := m.m_vecGameTable[0], m.m_vecGameTable[1];
    assert m.m_listFreeTable == [zero, one];
    table := m.FindNormalSuitTable(INVALID_TABLE, 0, {});
    assert table == zero && m.m_listUsedTable == [zero] && m.m_listFreeTable == [one];
    table := m.FindNormalSuitTable(INVALID_TABLE, 0, {});
  }

  /** The excepted table is handed out where it is the first free one. */
  method AnyButZero() returns (table: CTableFrame?)
    ensures table != null && table.tableId == 0
  {
    var m := new CGameTableManager();
    m.InitAllTable(2, 2, 5);
    table := m.FindNormalSuitTable(0, INVALID_TABLE, {});
  }
}
