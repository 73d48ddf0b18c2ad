/** ConnectionPool.cpp with its threads taking turns step by step: the mutex guards the list, but
    the size is tested and changed outside it. */
module ConnectionPool {
  import opened Options

  /** A connection is known by the number of its creation. */
  type Conn = nat

  /** Where a thread stands in GetConnection or ReleaseConnection. */
  datatype Pc =
    | Idle
    | Locked                // GetConnection holds the mutex
    | FoundSome(c: Conn)    // has taken the front connection, mutex held
    | FoundNone             // the list was empty, mutex held
    | Popped(c: Conn)       // about to ask whether the connection is alive
    | Recreating            // has deleted a dead one
    | Lost                  // could not recreate it, size not yet reduced
    | Empty                 // about to test the size
    | Admitted              // has passed the test
    | Created(c: Conn)      // size not yet raised
    | Returning(c: Conn)
    | Releasing(c: Conn)    // ReleaseConnection, waiting for the mutex
    | Pushing(c: Conn)      // mutex held
    | Pushed                // mutex still held

  /** What the environment decides: the calls made, and whether the database answers. */
  datatype Choice = CallGet | CallRelease(c: Conn) | Go(ok: bool)

  datatype Event = Event(thread: nat, choice: Choice)

  datatype Pool = Pool(maxSize: nat, curSize: int, idle: seq<Conn>, out: set<Conn>, owner: Option<nat>,
                       threads: seq<Pc>, next: Conn)

  /** After initPool, which creates up to half of maxSize connections; `made` of them succeeded. */
  function Start(maxSize: nat, made: nat, threads: nat): Pool
    requires made <= maxSize / 2
  {
    Pool(maxSize, made, seq(made, i => i), {}, None, seq(threads, i => Idle), made)
  }

  /** One step of thread t, if it can take one. */
  function Step(s: Pool, e: Event): Option<Pool> {
    var t := e.thread;
    if t >= |s.threads| then None else
    match (s.threads[t], e.choice)
    case (Idle, CallGet) =>
      if s.owner.None? then Some(s.(threads := s.threads[t := Locked], owner := Some(t))) else None
    case (Idle, CallRelease(c)) =>
      if c in s.out then Some(s.(threads := s.threads[t := Releasing(c)], out := s.out - {c})) else None
    case (Locked, Go(_)) =>
      Some(if |s.idle| > 0 then
             s.(threads := s.threads[t := FoundSome(s.idle[0])], idle := s.idle[1..])
           else
             s.(threads := s.threads[t := FoundNone]))
    case (FoundSome(c), Go(_)) => Some(s.(threads := s.threads[t := Popped(c)], owner := None))
    case (FoundNone, Go(_)) => Some(s.(threads := s.threads[t := Empty], owner := None))
    case (Popped(c), Go(alive)) => Some(s.(threads := s.threads[t := if alive then Returning(c) else Recreating]))
    case (Recreating, Go(ok)) =>
      Some(if ok then s.(threads := s.threads[t := Returning(s.next)], next := s.next + 1)
           else s.(threads := s.threads[t := Lost]))
    case (Lost, Go(_)) => Some(s.(threads := s.threads[t := Idle], curSize := s.curSize - 1))
    case (Empty, Go(_)) => Some(s.(threads := s.threads[t := if s.curSize < s.maxSize then Admitted else Idle]))
    case (Admitted, Go(ok)) =>
      Some(if ok then s.(threads := s.threads[t := Created(s.next)], next := s.next + 1)
           else s.(threads := s.threads[t := Idle]))
    case (Created(c), Go(_)) => Some(s.(threads := s.threads[t := Returning(c)], curSize := s.curSize + 1))
    case (Returning(c), Go(_)) => Some(s.(threads := s.threads[t := Idle], out := s.out + {c}))
    case (Releasing(c), Go(_)) =>
      if s.owner.None? then Some(s.(threads := s.threads[t := Pushing(c)], owner := Some(t))) else None
    case (Pushing(c), Go(_)) => Some(s.(threads := s.threads[t := Pushed], idle := s.idle + [c]))
    case (Pushed, Go(_)) => Some(s.(threads := s.threads[t := Idle], owner := None))
    case _ => None
  }

  /** A run: the events in turn, as long as each can happen. */
  function Run(s: Pool, events: seq<Event>): Option<Pool>
    decreases |events|
  {
    if events == [] then Some(s) else
    match Step(s, events[0])
    case None => None
    case Some(next) => Run(next, events[1..])
  }

  // ---- Counting threads ----

  /** Connections the size counts that are neither in the list nor checked out. */
  function Pending(pc: Pc): nat {
    if pc.FoundSome? || pc.Popped? || pc.Recreating? || pc.Lost? || pc.Returning? || pc.Releasing? || pc.Pushing? then 1
    else 0
  }

  /** Threads past the size test that have not raised the size. */
  function Entering(pc: Pc): nat {
    if pc.Admitted? || pc.Created? then 1 else 0
  }

  predicate HoldsMutex(pc: Pc) {
    pc.Locked? || pc.FoundSome? || pc.FoundNone? || pc.Pushing? || pc.Pushed?
  }

  /** The connection a thread has in hand. */
  function Carried(pc: Pc): Option<Conn> {
    if pc.FoundSome? || pc.Popped? || pc.Created? || pc.Returning? || pc.Releasing? || pc.Pushing? then Some(pc.c) else None
  }

  ghost function Count(threads: seq<Pc>, weight: Pc -> nat): nat {
    if threads == [] then 0 else weight(threads[0]) + Count(threads[1..], weight)
  }

  lemma {:induction false} CountUpdated(threads: seq<Pc>, weight: Pc -> nat, t: nat, pc: Pc)
    requires t < |threads|
    ensures Count(threads[t := pc], weight) == Count(threads, weight) - weight(threads[t]) + weight(pc)
  {
    if t > 0 {
      assert threads[t := pc][1..] == threads[1..][t - 1 := pc];
      CountUpdated(threads[1..], weight, t - 1, pc);
    } else {
      assert threads[0 := pc][1..] == threads[1..];
    }
  }

  lemma {:induction false} CountAtMost(threads: seq<Pc>)
    ensures Count(threads, Entering) <= |threads|
  {
    if threads != [] {
      CountAtMost(threads[1..]);
    }
  }

  lemma {:induction false} CountIdle(n: nat, weight: Pc -> nat)
    requires weight(Idle) == 0
    ensures Count(seq(n, i => Idle), weight) == 0
  {
    if n > 0 {
      assert seq(n, i => Idle)[1..] == seq(n - 1, i => Idle);
      CountIdle(n - 1, weight);
    }
  }

  // ---- What every run keeps ----

  /** One thread at a time holds the mutex. */
  ghost predicate Exclusive(s: Pool) {
    forall t | 0 <= t < |s.threads| :: HoldsMutex(s.threads[t]) <==> s.owner == Some(t)
  }

  /** No connection is in two places: the list, the callers' hands, and the threads' hands. */
  ghost predicate Separate(s: Pool) {
    ListApart(s) && OutApart(s) && HandsApart(s.threads)
  }

  ghost predicate ListApart(s: Pool) {
    && (forall i, k | 0 <= i < k < |s.idle| :: s.idle[i] != s.idle[k])
    && (forall i | 0 <= i < |s.idle| :: s.idle[i] < s.next && s.idle[i] !in s.out)
    && (forall c | c in s.out :: c < s.next)
  }

  ghost predicate OutApart(s: Pool) {
    forall t | 0 <= t < |s.threads| && Carried(s.threads[t]).Some? ::
      var c := Carried(s.threads[t]).value;
      c < s.next && c !in s.out && c !in s.idle
  }

  ghost predicate HandsApart(threads: seq<Pc>) {
    forall t, u | 0 <= t < u < |threads| && Carried(threads[t]).Some? && Carried(threads[u]).Some? ::
      Carried(threads[t]).value != Carried(threads[u]).value
  }

  /** The size is the connections in the list, those checked out, and those on their way. */
  ghost predicate Accounted(s: Pool) {
    s.curSize == |s.idle| + |s.out| + Count(s.threads, Pending)
  }

  /** Each thread past the test may still raise the size, and all of them may have passed it
      together. */
  ghost predicate Bounded(s: Pool) {
    s.curSize + Count(s.threads, Entering) <= s.maxSize + |s.threads| - 1
  }

  lemma StartKeeps(maxSize: nat, made: nat, threads: nat)
    requires made <= maxSize / 2 && threads >= 1
    ensures var s := Start(maxSize, made, threads);
            Exclusive(s) && ListApart(s) && OutApart(s) && HandsApart(s.threads) && Accounted(s) && Bounded(s)
  {
    CountIdle(threads, Pending);
    CountIdle(threads, Entering);
  }

  lemma StepExclusive(s: Pool, e: Event)
    requires Exclusive(s) && Step(s, e).Some?
    ensures Exclusive(Step(s, e).value)
  {
  }

  lemma StepListApart(s: Pool, e: Event)
    requires Separate(s) && Step(s, e).Some?
    ensures ListApart(Step(s, e).value)
  {
    hide HandsApart;
    assert Carried(s.threads[e.thread]).Some? ==> Carried(s.threads[e.thread]).value !in s.idle;
  }

  lemma StepOutApart(s: Pool, e: Event)
    requires Separate(s) && Step(s, e).Some?
    ensures OutApart(Step(s, e).value)
  {
    var s' := Step(s, e).value;
    forall t | 0 <= t < |s'.threads| && Carried(s'.threads[t]).Some?
      ensures Carried(s'.threads[t]).value < s'.next
      ensures Carried(s'.threads[t]).value !in s'.out
      ensures Carried(s'.threads[t]).value !in s'.idle
    {
      if t == e.thread {
      } else {
        assert s'.threads[t] == s.threads[t];
      }
    }
  }

  lemma StepHandsApart(s: Pool, e: Event)
    requires Separate(s) && Step(s, e).Some?
    ensures HandsApart(Step(s, e).value.threads)
  {
    hide ListApart;
    var s' := Step(s, e).value;
    var mine := Carried(s'.threads[e.thread]);
    forall u | 0 <= u < |s.threads| && u != e.thread && Carried(s.threads[u]).Some?
      ensures mine != Carried(s.threads[u])
    {
    }
  }

  lemma StepAccounted(s: Pool, e: Event)
    requires Separate(s) && Accounted(s) && Step(s, e).Some?
    ensures Accounted(Step(s, e).value)
  {
    hide Separate;
    var s' := Step(s, e).value;
    var was, now := s.threads[e.thread], s'.threads[e.thread];
    assert s'.threads == s.threads[e.thread := now];
    CountUpdated(s.threads, Pending, e.thread, now);
    StepMoves(s, e);
  }

  /** A step moves connections between the size, the list, the callers and the thread. */
  lemma StepMoves(s: Pool, e: Event)
    requires Separate(s) && Step(s, e).Some?
    ensures var s' := Step(s, e).value;
            s'.curSize - |s'.idle| - |s'.out| - Pending(s'.threads[e.thread])
            == s.curSize - |s.idle| - |s.out| - Pending(s.threads[e.thread])
  {
    SizeMoves(s, e);
    ListMoves(s, e);
    OutMoves(s, e);
    PendingMoves(s, e);
    hide *;
  }

  lemma SizeMoves(s: Pool, e: Event)
    requires Step(s, e).Some?
    ensures var pc := s.threads[e.thread];
            Step(s, e).value.curSize == s.curSize + if pc.Created? then 1 else if pc.Lost? then -1 else 0
  {
  }

  lemma ListMoves(s: Pool, e: Event)
    requires Step(s, e).Some?
    ensures var pc := s.threads[e.thread];
            |Step(s, e).value.idle| ==
            |s.idle| + if pc.Pushing? then 1 else if pc.Locked? && |s.idle| > 0 then -1 else 0
  {
  }

  lemma OutMoves(s: Pool, e: Event)
    requires Separate(s) && Step(s, e).Some?
    ensures var pc := s.threads[e.thread];
            |Step(s, e).value.out| ==
            |s.out| + if pc.Returning? then 1 else if pc.Idle? && e.choice.CallRelease? then -1 else 0
  {
    var pc := s.threads[e.thread];
    if pc.Returning? {
      NotOutYet(s, e.thread);
      OneMoreOut(s.out, pc.c);
    }
    hide Separate;
  }

  lemma PendingMoves(s: Pool, e: Event)
    requires Step(s, e).Some?
    ensures var pc := s.threads[e.thread];
            Pending(Step(s, e).value.threads[e.thread]) == Pending(pc) +
              if pc.Created? then 1
              else if pc.Lost? || pc.Pushing? || pc.Returning? then -1
              else if (pc.Locked? && |s.idle| > 0) || (pc.Idle? && e.choice.CallRelease?) then 1
              else 0
  {
  }

  lemma NotOutYet(s: Pool, t: nat)
    requires Separate(s) && t < |s.threads| && s.threads[t].Returning?
    ensures s.threads[t].c !in s.out
  {
  }

  lemma OneMoreOut(out: set<Conn>, c: Conn)
    requires c !in out
    ensures |out + {c}| == |out| + 1
  {
  }

  /** A step raises the size and the entering threads together only by letting a thread past the
      test. */
  lemma EnteringMoves(s: Pool, e: Event)
    requires Step(s, e).Some?
    ensures var s' := Step(s, e).value;
            && e.thread < |s.threads| == |s'.threads| && s'.maxSize == s.maxSize
            && s'.threads == s.threads[e.thread := s'.threads[e.thread]]
            && (s'.curSize + Entering(s'.threads[e.thread]) <= s.curSize + Entering(s.threads[e.thread])
                || s'.curSize == s.curSize < s.maxSize)
  {
  }

  lemma StepBounded(s: Pool, e: Event)
    requires Bounded(s) && Step(s, e).Some?
    ensures Bounded(Step(s, e).value)
  {
    hide Step, Entering;
    var s' := Step(s, e).value;
    EnteringMoves(s, e);
    CountUpdated(s.threads, Entering, e.thread, s'.threads[e.thread]);
    CountAtMost(s'.threads);
  }

  ghost predicate Good(s: Pool) {
    Exclusive(s) && Separate(s) && Accounted(s) && Bounded(s)
  }

  /** Whatever the threads do in whatever order, and however the database answers. */
  lemma {:induction false} RunKeeps(s: Pool, events: seq<Event>)
    requires Good(s) && Run(s, events).Some?
    ensures Good(Run(s, events).value)
    ensures Run(s, events).value.maxSize == s.maxSize && |Run(s, events).value.threads| == |s.threads|
    decreases |events|
  {
    hide Good;
    if events != [] {
      StepKeeps(s, events[0]);
      RunKeeps(Step(s, events[0]).value, events[1..]);
    }
  }

  lemma StepKeeps(s: Pool, e: Event)
    requires Good(s) && Step(s, e).Some?
    ensures Good(Step(s, e).value)
    ensures Step(s, e).value.maxSize == s.maxSize && |Step(s, e).value.threads| == |s.threads|
  {
    hide Exclusive, ListApart, OutApart, HandsApart, Accounted, Bounded;
    StepExclusive(s, e);
    StepListApart(s, e);
    StepOutApart(s, e);
    StepHandsApart(s, e);
    StepAccounted(s, e);
    StepBounded(s, e);
  }

  /** From initPool on, the size exceeds maxSize by less than the number of threads; a single
      thread never exceeds it. At rest the size is exactly the connections there are. */
  lemma SizeBound(maxSize: nat, made: nat, threads: nat, events: seq<Event>)
    requires made <= maxSize / 2 && threads >= 1 && Run(Start(maxSize, made, threads), events).Some?
    ensures var s := Run(Start(maxSize, made, threads), events).value;
            && |s.idle| + |s.out| <= s.curSize <= maxSize + threads - 1
            && (threads == 1 ==> s.curSize <= maxSize)
            && ((forall t | 0 <= t < |s.threads| :: s.threads[t] == Idle) ==> s.curSize == |s.idle| + |s.out|)
  {
    StartKeeps(maxSize, made, threads);
    RunKeeps(Start(maxSize, made, threads), events);
    var s := Run(Start(maxSize, made, threads), events).value;
    if forall t | 0 <= t < |s.threads| :: s.threads[t] == Idle {
      assert s.threads == seq(threads, i => Idle);
      CountIdle(threads, Pending);
    }
  }

  /** Some thread can always go on: the mutex is only waited for while its holder can move. */
  lemma NoDeadlock(s: Pool, t: nat) returns (u: nat)
    requires Exclusive(s) && t < |s.threads| && s.threads[t] != Idle && (s.owner.Some? ==> s.owner.value < |s.threads|)
    ensures u < |s.threads| && s.threads[u] != Idle && Step(s, Event(u, Go(true))).Some?
  {
    u := if s.owner.Some? then s.owner.value else t;
  }

  // ---- The bound is reached ----

  ghost predicate Reaches(s: Pool, s': Pool) {
    exists events :: Run(s, events) == Some(s')
  }

  lemma {:induction false} RunThenStep(s: Pool, events: seq<Event>, e: Event)
    requires Run(s, events).Some?
    ensures Run(s, events + [e]) == Step(Run(s, events).value, e)
    decreases |events|
  {
    if events == [] {
      assert Run(s, [e]) == Step(s, e);
    } else {
      assert (events + [e])[1..] == events[1..] + [e];
      RunThenStep(Step(s, events[0]).value, events[1..], e);
    }
  }

  lemma ReachesMore(s: Pool, m: Pool, t: nat, choice: Choice) returns (s': Pool)
    requires Reaches(s, m) && Step(m, Event(t, choice)).Some?
    ensures s' == Step(m, Event(t, choice)).value && Reaches(s, s')
  {
    s' := Step(m, Event(t, choice)).value;
    var events :| Run(s, events) == Some(m);
    RunThenStep(s, events, Event(t, choice));
  }

  /** A state between calls, with the list empty and everything checked out. */
  ghost predicate AllOut(s: Pool) {
    s.idle == [] && s.owner.None? && forall t | 0 <= t < |s.threads| :: s.threads[t] == Idle
  }

  /** One call by thread 0 while the list has connections: one fewer there. */
  lemma TakeOne(s0: Pool, s: Pool) returns (s': Pool)
    requires Reaches(s0, s) && s.owner.None? && |s.threads| > 0 && |s.idle| > 0
    requires forall t | 0 <= t < |s.threads| :: s.threads[t] == Idle
    ensures Reaches(s0, s') && s' == s.(idle := s.idle[1..], out := s.out + {s.idle[0]})
  {
    hide Reaches;
    s' := ReachesMore(s0, s, 0, CallGet);
    s' := ReachesMore(s0, s', 0, Go(true));
    s' := ReachesMore(s0, s', 0, Go(true));
    s' := ReachesMore(s0, s', 0, Go(true));
    s' := ReachesMore(s0, s', 0, Go(true));
    assert s'.threads == s.threads;
  }

  /** One call by thread 0 with the list empty and room to grow. */
  lemma GrowOne(s0: Pool, s: Pool) returns (s': Pool)
    requires Reaches(s0, s) && AllOut(s) && |s.threads| > 0 && s.curSize < s.maxSize
    ensures Reaches(s0, s') && s' == s.(curSize := s.curSize + 1, out := s.out + {s.next}, next := s.next + 1)
  {
    hide Reaches;
    s' := ReachesMore(s0, s, 0, CallGet);
    s' := ReachesMore(s0, s', 0, Go(true));
    s' := ReachesMore(s0, s', 0, Go(true));
    s' := ReachesMore(s0, s', 0, Go(true));
    s' := ReachesMore(s0, s', 0, Go(true));
    s' := ReachesMore(s0, s', 0, Go(true));
    s' := ReachesMore(s0, s', 0, Go(true));
    assert s'.threads == s.threads;
  }

  lemma {:induction false} TakeAll(s0: Pool, s: Pool) returns (s': Pool)
    requires Reaches(s0, s) && s.owner.None? && |s.threads| > 0
    requires forall t | 0 <= t < |s.threads| :: s.threads[t] == Idle
    ensures Reaches(s0, s') && AllOut(s') && s'.curSize == s.curSize && s'.maxSize == s.maxSize
    ensures |s'.threads| == |s.threads|
    decreases |s.idle|
  {
    hide Reaches;
    if s.idle == [] {
      s' := s;
    } else {
      s' := TakeOne(s0, s);
      s' := TakeAll(s0, s');
    }
  }

  lemma {:induction false} GrowAll(s0: Pool, s: Pool) returns (s': Pool)
    requires Reaches(s0, s) && AllOut(s) && |s.threads| > 0 && s.curSize < s.maxSize
    ensures Reaches(s0, s') && AllOut(s') && s'.curSize == s.maxSize - 1 && s'.maxSize == s.maxSize
    ensures |s'.threads| == |s.threads|
    decreases s.maxSize - s.curSize
  {
    hide Reaches;
    if s.curSize == s.maxSize - 1 {
      s' := s;
    } else {
      s' := GrowOne(s0, s);
      s' := GrowAll(s0, s');
    }
  }

  /** All threads from k on find the list empty, one after the other. */
  lemma {:induction false} AllFindNone(s0: Pool, s: Pool, k: nat) returns (s': Pool)
    requires Reaches(s0, s) && s.idle == [] && s.owner.None? && k <= |s.threads|
    requires forall t | 0 <= t < |s.threads| :: s.threads[t] == if t < k then Empty else Idle
    ensures Reaches(s0, s') && |s'.threads| == |s.threads| && s'.curSize == s.curSize && s'.maxSize == s.maxSize
    ensures forall t | 0 <= t < |s.threads| :: s'.threads[t] == Empty
    decreases |s.threads| - k
  {
    hide Reaches;
    if k == |s.threads| {
      s' := s;
    } else {
      s' := ReachesMore(s0, s, k, CallGet);
      s' := ReachesMore(s0, s', k, Go(true));
      s' := ReachesMore(s0, s', k, Go(true));
      s' := AllFindNone(s0, s', k + 1);
    }
  }

  /** All of them pass the test before any raises the size. */
  lemma {:induction false} AllPass(s0: Pool, s: Pool, k: nat) returns (s': Pool)
    requires Reaches(s0, s) && k <= |s.threads| && s.curSize < s.maxSize
    requires forall t | 0 <= t < |s.threads| :: s.threads[t] == if t < k then Admitted else Empty
    ensures Reaches(s0, s') && |s'.threads| == |s.threads| && s'.curSize == s.curSize && s'.maxSize == s.maxSize
    ensures forall t | 0 <= t < |s.threads| :: s'.threads[t] == Admitted
    decreases |s.threads| - k
  {
    hide Reaches;
    if k == |s.threads| {
      s' := s;
    } else {
      s' := ReachesMore(s0, s, k, Go(true));
      s' := AllPass(s0, s', k + 1);
    }
  }

  /** Then each of them raises it. */
  lemma {:induction false} AllEnter(s0: Pool, s: Pool, k: nat) returns (s': Pool)
    requires Reaches(s0, s) && k <= |s.threads|
    requires forall t | k <= t < |s.threads| :: s.threads[t] == Admitted
    ensures Reaches(s0, s') && s'.curSize == s.curSize + |s.threads| - k
    decreases |s.threads| - k
  {
    hide Reaches;
    if k == |s.threads| {
      s' := s;
    } else {
      s' := ReachesMore(s0, s, k, Go(true));
      s' := ReachesMore(s0, s', k, Go(true));
      s' := AllEnter(s0, s', k + 1);
    }
  }

  /** The bound is met for every number of threads and every maximum but zero: the test outside the
      mutex lets the size exceed maxSize as soon as there are two threads. */
  lemma BoundReached(maxSize: nat, threads: nat) returns (s: Pool)
    requires maxSize >= 1 && threads >= 1
    ensures Reaches(Start(maxSize, maxSize / 2, threads), s) && s.curSize == maxSize + threads - 1
  {
    var s0 := Start(maxSize, maxSize / 2, threads);
    assert Run(s0, []) == Some(s0);
    s := TakeAll(s0, s0);
    s := GrowAll(s0, s);
    s := AllFindNone(s0, s, 0);
    s := AllPass(s0, s, 0);
    s := AllEnter(s0, s, 0);
  }

  /** With a maximum of zero no connection is ever counted. */
  lemma {:induction false} NothingAtZero(s: Pool, events: seq<Event>)
    requires Good(s) && s.maxSize == 0 && s.curSize <= 0 && Count(s.threads, Entering) == 0 && Run(s, events).Some?
    ensures Run(s, events).value.curSize <= 0
    decreases |events|
  {
    hide Exclusive, Separate;
    if events != [] {
      var e := events[0];
      var s' := Step(s, e).value;
      CountUpdated(s.threads, Entering, e.thread, s'.threads[e.thread]);
      CountZero(s.threads, e.thread);
      StepKeeps(s, e);
      NothingAtZero(s', events[1..]);
    }
  }

  lemma {:induction false} CountZero(threads: seq<Pc>, t: nat)
    requires t < |threads| && Count(threads, Entering) == 0
    ensures Entering(threads[t]) == 0
  {
    if t > 0 {
      CountZero(threads[1..], t - 1);
    }
  }
}
