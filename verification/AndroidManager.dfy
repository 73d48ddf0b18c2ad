/** AndroidUserManager.cpp: the robots of a room, each free or in use. */
module AndroidManager {
  import opened Lists

  class CAndroidUserItem {
    const userId: int

    constructor (userId: int)
      ensures this.userId == userId
    {
      this.userId := userId;
    }
  }

  class CAndroidUserManager {
    var m_AllAndroidUserVec: seq<CAndroidUserItem>
    var m_AndroidUserItemUsedList: seq<CAndroidUserItem>
    var m_AndroidUserItemFreeList: seq<CAndroidUserItem>

    /** The two lists divide all robots between them. */
    ghost predicate Valid()
      reads this
    {
      Distinct(m_AllAndroidUserVec) && Divides(m_AllAndroidUserVec, m_AndroidUserItemUsedList, m_AndroidUserItemFreeList)
    }

    constructor ()
      ensures Valid() && m_AllAndroidUserVec == [] && m_AndroidUserItemUsedList == []
    {
      m_AllAndroidUserVec, m_AndroidUserItemUsedList, m_AndroidUserItemFreeList := [], [], [];
    }

    method AddAndroid(userId: int)
      requires Valid()
      modifies this
      ensures Valid() && m_AndroidUserItemUsedList == old(m_AndroidUserItemUsedList)
      ensures |m_AllAndroidUserVec| == |old(m_AllAndroidUserVec)| + 1 && old(m_AllAndroidUserVec) <= m_AllAndroidUserVec
      ensures var added := m_AllAndroidUserVec[|m_AllAndroidUserVec| - 1];
              fresh(added) && added.userId == userId && m_AndroidUserItemFreeList == old(m_AndroidUserItemFreeList) + [added]
    {
      var item := new CAndroidUserItem(userId);
      AppendDistinct(m_AllAndroidUserVec, item);
      AppendDistinct(m_AndroidUserItemFreeList, item);
      m_AllAndroidUserVec := m_AllAndroidUserVec + [item];
      m_AndroidUserItemFreeList := m_AndroidUserItemFreeList + [item];
    }

    /** The robot that has been free the longest, if any is. */
    method GetFreeAndroidUserItem() returns (item: CAndroidUserItem?)
      requires Valid()
      modifies this
      ensures Valid() && m_AllAndroidUserVec == old(m_AllAndroidUserVec)
      ensures item == null <==> old(m_AndroidUserItemFreeList) == []
      ensures if item == null then
                && m_AndroidUserItemFreeList == []
                && m_AndroidUserItemUsedList == old(m_AndroidUserItemUsedList)
              else
                && [item] + m_AndroidUserItemFreeList == old(m_AndroidUserItemFreeList)
                && m_AndroidUserItemUsedList == old(m_AndroidUserItemUsedList) + [item]
    {
      if m_AndroidUserItemFreeList == [] {
        return null;
      }
      item := m_AndroidUserItemFreeList[0];
      WithoutDistinct(m_AndroidUserItemFreeList, 0);
      AppendDistinct(m_AndroidUserItemUsedList, item);
      assert Without(m_AndroidUserItemFreeList, 0) == m_AndroidUserItemFreeList[1..];
      m_AndroidUserItemUsedList := m_AndroidUserItemUsedList + [item];
      m_AndroidUserItemFreeList := m_AndroidUserItemFreeList[1..];
    }

    /** Frees the first robot in use with the id. */
    method DeleteAndroidUserItem(userId: int) returns (success: bool)
      requires Valid()
      modifies this
      ensures Valid() && m_AllAndroidUserVec == old(m_AllAndroidUserVec)
      ensures success <==> exists x | x in old(m_AndroidUserItemUsedList) :: x.userId == userId
      ensures !success ==>
                && m_AndroidUserItemUsedList == old(m_AndroidUserItemUsedList)
                && m_AndroidUserItemFreeList == old(m_AndroidUserItemFreeList)
      ensures success ==>
                exists i | 0 <= i < |old(m_AndroidUserItemUsedList)| ::
                  && old(m_AndroidUserItemUsedList)[i].userId == userId
                  && (forall k | 0 <= k < i :: old(m_AndroidUserItemUsedList)[k].userId != userId)
                  && m_AndroidUserItemUsedList == Without(old(m_AndroidUserItemUsedList), i)
                  && m_AndroidUserItemFreeList == old(m_AndroidUserItemFreeList) + [old(m_AndroidUserItemUsedList)[i]]
    {
      for i := 0 to |m_AndroidUserItemUsedList|
        invariant m_AllAndroidUserVec == old(m_AllAndroidUserVec)
        invariant m_AndroidUserItemUsedList == old(m_AndroidUserItemUsedList)
        invariant m_AndroidUserItemFreeList == old(m_AndroidUserItemFreeList)
        invariant forall k | 0 <= k < i :: m_AndroidUserItemUsedList[k].userId != userId
      {
        var item := m_AndroidUserItemUsedList[i];
        if item.userId == userId {
          WithoutDistinct(m_AndroidUserItemUsedList, i);
          AppendDistinct(m_AndroidUserItemFreeList, item);
          m_AndroidUserItemFreeList := m_AndroidUserItemFreeList + [item];
          m_AndroidUserItemUsedList := Without(m_AndroidUserItemUsedList, i);
          return true;
        }
      }
      success := false;
    }
  }
}
