/** The replay record of gameDefine.h: four lists whose slots are marked free and used again. */
module GameReplay {

  /** A slot keeps its value when it is marked invalid. */
  datatype Slot<T> = Slot(value: T, flag: bool)

  datatype ReplayPlayer = ReplayPlayer(userid: int, account: string, score: int, chairid: int)
  datatype ReplayStep = ReplayStep(time: int, bet: string, round: int, ty: int, chairId: int, pos: int)
  datatype ReplayResult = ReplayResult(chairId: int, pos: int, bet: int, win: int, cardtype: string, isbanker: bool)
  datatype RecordDetail = RecordDetail(userid: int, chairId: int, detailData: string)

  /** The valid slots come first. */
  ghost predicate Packed<T>(slots: seq<Slot<T>>) {
    forall i, k | 0 <= i < k < |slots| && slots[k].flag :: slots[i].flag
  }

  /** What is recorded: the values of the valid slots, in order. */
  ghost function Recorded<T>(slots: seq<Slot<T>>): seq<T> {
    if slots == [] then [] else
    (if slots[0].flag then [slots[0].value] else []) + Recorded(slots[1..])
  }

  lemma {:induction false} RecordedOfUsed<T>(slots: seq<Slot<T>>)
    requires forall i | 0 <= i < |slots| :: slots[i].flag
    ensures |Recorded(slots)| == |slots| && forall i | 0 <= i < |slots| :: Recorded(slots)[i] == slots[i].value
  {
    if slots != [] {
      RecordedOfUsed(slots[1..]);
    }
  }

  lemma {:induction false} RecordedOfFree<T>(slots: seq<Slot<T>>)
    requires forall i | 0 <= i < |slots| :: !slots[i].flag
    ensures Recorded(slots) == []
  {
    if slots != [] {
      RecordedOfFree(slots[1..]);
    }
  }

  lemma {:induction false} RecordedOfConcat<T>(s: seq<Slot<T>>, t: seq<Slot<T>>)
    ensures Recorded(s + t) == Recorded(s) + Recorded(t)
  {
    if s == [] {
      assert s + t == t;
    } else {
      assert (s + t)[1..] == s[1..] + t;
      RecordedOfConcat(s[1..], t);
      var first := if s[0].flag then [s[0].value] else [];
      assert Recorded(s) == first + Recorded(s[1..]);
      assert first + (Recorded(s[1..]) + Recorded(t)) == first + Recorded(s[1..]) + Recorded(t);
    }
  }

  /** Filling the first free slot of a packed list adds to the end of the record. */
  lemma FilledSlot<T>(slots: seq<Slot<T>>, i: nat, value: T)
    requires Packed(slots) && i < |slots| && !slots[i].flag && forall k | 0 <= k < i :: slots[k].flag
    ensures Packed(slots[i := Slot(value, true)])
    ensures Recorded(slots[i := Slot(value, true)]) == Recorded(slots) + [value]
  {
    var now := slots[i := Slot(value, true)];
    assert slots == slots[..i] + slots[i..] && now == slots[..i] + ([Slot(value, true)] + slots[i + 1..]);
    RecordedOfConcat(slots[..i], slots[i..]);
    RecordedOfConcat(slots[..i], [Slot(value, true)] + slots[i + 1..]);
    RecordedOfFree(slots[i..]);
    RecordedOfFree(slots[i + 1..]);
    assert ([Slot(value, true)] + slots[i + 1..])[1..] == slots[i + 1..];
  }

  /** The search for a free slot, and the push when there is none: the length grows only if all
      slots are in use. */
  method AddTo<T>(slots: seq<Slot<T>>, value: T) returns (now: seq<Slot<T>>)
    requires Packed(slots)
    ensures Packed(now) && Recorded(now) == Recorded(slots) + [value]
    ensures |now| == if |Recorded(slots)| == |slots| then |slots| + 1 else |slots|
  {
    var i := 0;
    while i < |slots| && slots[i].flag
      invariant i <= |slots| && forall k | 0 <= k < i :: slots[k].flag
    {
      i := i + 1;
    }
    assert slots == slots[..i] + slots[i..];
    RecordedOfConcat(slots[..i], slots[i..]);
    RecordedOfUsed(slots[..i]);
    if i == |slots| {
      RecordedOfConcat(slots, [Slot(value, true)]);
      RecordedOfUsed([Slot(value, true)]);
      now := slots + [Slot(value, true)];
    } else {
      RecordedOfFree(slots[i..]);
      FilledSlot(slots, i, value);
      now := slots[i := Slot(value, true)];
    }
  }

  method Clear<T>(slots: seq<Slot<T>>) returns (now: seq<Slot<T>>)
    ensures Packed(now) && Recorded(now) == [] && |now| == |slots|
    ensures forall i | 0 <= i < |slots| :: now[i].value == slots[i].value
  {
    now := slots;
    for i := 0 to |slots|
      invariant |now| == |slots|
      invariant forall k | 0 <= k < |slots| :: now[k] == if k < i then slots[k].(flag := false) else slots[k]
    {
      now := now[i := now[i].(flag := false)];
    }
    RecordedOfFree(now);
  }

  class TagGameReplay {
    var players: seq<Slot<ReplayPlayer>>
    var steps: seq<Slot<ReplayStep>>
    var results: seq<Slot<ReplayResult>>
    var bairendetails: seq<Slot<RecordDetail>>

    ghost predicate Valid()
      reads this
    {
      Packed(players) && Packed(steps) && Packed(results) && Packed(bairendetails)
    }

    constructor ()
      ensures Valid() && players == [] && steps == [] && results == [] && bairendetails == []
    {
      players, steps, results, bairendetails := [], [], [], [];
    }

    /** Nothing is recorded any more, and no slot is given up. */
    method ClearAll()
      requires Valid()
      modifies this
      ensures Valid()
      ensures Recorded(players) == [] && Recorded(steps) == [] && Recorded(results) == [] && Recorded(bairendetails) == []
      ensures |players| == |old(players)| && |steps| == |old(steps)|
      ensures |results| == |old(results)| && |bairendetails| == |old(bairendetails)|
    {
      steps := Clear(steps);
      players := Clear(players);
      results := Clear(results);
      bairendetails := Clear(bairendetails);
    }

    method AddResult(chairId: int, pos: int, bet: int, win: int, cardtype: string, isBanker: bool)
      requires Valid()
      modifies this`results
      ensures Valid()
      ensures Recorded(results) == old(Recorded(results)) + [ReplayResult(chairId, pos, bet, win, cardtype, isBanker)]
    {
      results := AddTo(results, ReplayResult(chairId, pos, bet, win, cardtype, isBanker));
    }

    method AddPlayer(userid: int, account: string, score: int, chairid: int)
      requires Valid()
      modifies this`players
      ensures Valid()
      ensures Recorded(players) == old(Recorded(players)) + [ReplayPlayer(userid, account, score, chairid)]
    {
      players := AddTo(players, ReplayPlayer(userid, account, score, chairid));
    }

    method AddStep(time: int, bet: string, round: int, ty: int, chairId: int, pos: int)
      requires Valid()
      modifies this`steps
      ensures Valid()
      ensures Recorded(steps) == old(Recorded(steps)) + [ReplayStep(time, bet, round, ty, chairId, pos)]
    {
      steps := AddTo(steps, ReplayStep(time, bet, round, ty, chairId, pos));
    }

    method AddDetail(userid: int, chairId: int, detailData: string)
      requires Valid()
      modifies this`bairendetails
      ensures Valid()
      ensures Recorded(bairendetails) == old(Recorded(bairendetails)) + [RecordDetail(userid, chairId, detailData)]
    {
      bairendetails := AddTo(bairendetails, RecordDetail(userid, chairId, detailData));
    }
  }
}
