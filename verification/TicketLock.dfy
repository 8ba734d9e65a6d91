/** The ticket lock behind `Mutex` and `SpinLock`, as interleaved atomic steps.

    Any number of threads mix Lock, TryLock and Unlock. One step is one atomic
    operation on `lock_`, `head_` or `try_lock_`; the two lock classes differ only in
    whether a failed spin yields, which is not a step. Only the thread inside the
    critical section calls Unlock. */
module TicketLock {
  import opened Threads

  /** Where a thread is inside Lock, TryLock or between Lock and Unlock. */
  datatype Pc =
    | Idle
    | TryCounted(prior: nat)       // try_lock_.fetch_add(1) returned `prior`
    | TrySawLock(lockSeen: nat)    // lock_ loaded, head_ not yet
    | TrySawHead(headSeen: nat)    // head_ loaded, lock_ not yet
    | TryRefused                   // about to undo the try_lock_ increment
    | Taking                       // about to take a ticket
    | Waiting(ticket: nat)
    | Critical(ticket: nat)

  datatype State = State(lock: nat, head: nat, tryLock: nat, pcs: map<Tid, Pc>) {
    function PcOf(t: Tid): Pc {
      if t in pcs then pcs[t] else Idle
    }

    function At(t: Tid, pc: Pc): State {
      this.(pcs := pcs[t := pc])
    }
  }

  datatype Event =
    | CallLock | TakeTicket | SpinMiss | Enter | Unlock
    | TryCount | TryBusy | TryLoadLock | TryLoadHead | TryPass | TryFail | TryUndo

  datatype Action = Action(tid: Tid, event: Event)

  predicate Init(s: State) {
    s == State(0, 0, 0, map[])
  }

  /** One atomic step of thread `a.tid`. The two loads compared by TryLock may happen in
      either order, as the language leaves the operand order of `>` open. */
  predicate Step(s: State, a: Action, s': State) {
    var t := a.tid;
    var pc := s.PcOf(t);
    match a.event
    case CallLock => pc.Idle? && s' == s.At(t, Taking)
    case TakeTicket => pc.Taking? && s' == s.At(t, Waiting(s.lock)).(lock := s.lock + 1)
    case SpinMiss => pc.Waiting? && pc.ticket != s.head && s' == s
    case Enter => pc.Waiting? && pc.ticket == s.head && s' == s.At(t, Critical(pc.ticket))
    case Unlock => pc.Critical? && s' == s.At(t, Idle).(head := s.head + 1)
    case TryCount => pc.Idle? && s' == s.At(t, TryCounted(s.tryLock)).(tryLock := s.tryLock + 1)
    case TryBusy => pc.TryCounted? && pc.prior > 0 && s' == s.At(t, TryRefused)
    case TryLoadLock => pc.TryCounted? && pc.prior == 0 && s' == s.At(t, TrySawLock(s.lock))
    case TryLoadHead => pc.TryCounted? && pc.prior == 0 && s' == s.At(t, TrySawHead(s.head))
    case TryPass =>
      (pc.TrySawLock? || pc.TrySawHead?) && !SawLocked(s, pc) && s' == s.At(t, Taking)
    case TryFail =>
      (pc.TrySawLock? || pc.TrySawHead?) && SawLocked(s, pc) && s' == s.At(t, TryRefused)
    case TryUndo =>
      // the source decrements an unsigned counter; Refusals below shows it is positive
      pc.TryRefused? && s' == s.At(t, Idle).(tryLock := if s.tryLock == 0 then 0 else s.tryLock - 1)
  }

  /** The test `lock_ > head_`, completed by the second of its two loads. */
  predicate SawLocked(s: State, pc: Pc)
    requires pc.TrySawLock? || pc.TrySawHead?
  {
    if pc.TrySawLock? then pc.lockSeen > s.head else s.lock > pc.headSeen
  }

  predicate Holds(s: State, t: Tid, ticket: int) {
    var pc := s.PcOf(t);
    (pc.Waiting? || pc.Critical?) && pc.ticket == ticket
  }

  ghost predicate Owned(s: State, ticket: int) {
    exists t :: Holds(s, t, ticket)
  }

  /** Tickets [head, lock) are outstanding, each with exactly one owner, and only the
      owner of ticket `head` is inside. */
  ghost predicate Tickets(s: State) {
    && s.head <= s.lock
    && (forall k :: s.head <= k < s.lock ==> Owned(s, k))
    && (forall t, k :: Holds(s, t, k) ==> s.head <= k < s.lock)
    && (forall t, u, k :: Holds(s, t, k) && Holds(s, u, k) ==> t == u)
    && (forall t :: s.PcOf(t).Critical? ==> Holds(s, t, s.head))
  }

  lemma TicketsStep(s: State, a: Action, s': State)
    requires Tickets(s) && Step(s, a, s')
    ensures Tickets(s')
  {
    var t := a.tid;
    assert forall u :: u != t ==> s'.PcOf(u) == s.PcOf(u);
    forall k | s'.head <= k < s'.lock
      ensures Owned(s', k)
    {
      if a.event.TakeTicket? && k == s.lock {
        assert Holds(s', t, k);
      } else {
        assert Owned(s, k);
        var u :| Holds(s, u, k);
        assert Holds(s', u, k);
      }
    }
    forall u, k | Holds(s', u, k)
      ensures Holds(s, u, k) || (a.event.TakeTicket? && u == t && k == s.lock)
      ensures s'.head <= k < s'.lock
    {
      if a.event.Unlock? {
        assert u != t && Holds(s, u, k) && Holds(s, t, s.head);
      }
    }
    assert s'.PcOf(t).Critical? ==> Holds(s', t, s'.head);
  }

  /** Inside TryLock's test, with a `try_lock_` increment still to be judged or undone. */
  predicate InTest(pc: Pc) {
    pc.TryCounted? || pc.TrySawLock? || pc.TrySawHead? || pc.TryRefused?
  }

  /** Still able to pass the test. */
  predicate Judging(pc: Pc) {
    (pc.TryCounted? && pc.prior == 0) || pc.TrySawLock? || pc.TrySawHead?
  }

  /** `try_lock_` counts the threads inside the test plus every pass there has ever been,
      since a pass is never undone. */
  ghost predicate Refusals(s: State, passes: nat) {
    && s.tryLock == |Having(s.pcs, InTest)| + passes
    && passes <= 1
    && (forall t :: Judging(s.PcOf(t)) ==> passes == 0)
    && (forall t, u :: Judging(s.PcOf(t)) && Judging(s.PcOf(u)) ==> t == u)
  }

  /** `try_lock_` moves with the threads inside the test, except that a pass leaves its
      increment behind. */
  lemma TestFollows(s: State, a: Action, s': State)
    requires Step(s, a, s') && (a.event.TryUndo? ==> s.tryLock > 0)
    ensures s'.pcs == s.pcs[a.tid := s'.PcOf(a.tid)] || (a.event.SpinMiss? && s' == s)
    ensures s'.tryLock + One(InTest(s.PcOf(a.tid)))
         == s.tryLock + One(InTest(s'.PcOf(a.tid))) + One(a.event.TryPass?)
  {
  }

  lemma InTestIsCounted(s: State, t: Tid)
    requires s.tryLock == 0 && |Having(s.pcs, InTest)| == 0
    ensures !InTest(s.PcOf(t))
  {
    if t in s.pcs { HavingNone(s.pcs, InTest, t); }
  }

  lemma RefusalsStep(s: State, a: Action, s': State, passes: nat)
    requires Refusals(s, passes) && Step(s, a, s')
    ensures Refusals(s', passes + One(a.event.TryPass?))
    ensures a.event.TryUndo? ==> s.tryLock > 0
  {
    var t := a.tid;
    if s.tryLock == 0 {
      forall u ensures !InTest(s.PcOf(u)) {
        InTestIsCounted(s, u);
      }
    }
    TestFollows(s, a, s');
    HavingAfterMove(s.pcs, t, s'.PcOf(t), InTest);
    forall u | Judging(s'.PcOf(u))
      ensures Judging(s.PcOf(u)) || (u == t && a.event.TryCount? && s.tryLock == 0)
    {
    }
  }

  // ---- whole runs -------------------------------------------------------------

  /** A finite run: states joined by steps, from the initial state. */
  ghost predicate Run(ss: seq<State>, acts: seq<Action>) {
    && |ss| == |acts| + 1
    && Init(ss[0])
    && forall i | 0 <= i < |acts| :: Step(ss[i], acts[i], ss[i + 1])
  }

  function Count(acts: seq<Action>, e: Event): nat {
    if acts == [] then 0
    else Count(acts[..|acts| - 1], e) + One(acts[|acts| - 1].event == e)
  }

  lemma {:induction false} Reachable(ss: seq<State>, acts: seq<Action>, i: nat)
    requires Run(ss, acts) && i < |ss|
    ensures Tickets(ss[i]) && Refusals(ss[i], Count(acts[..i], TryPass))
  {
    if i > 0 {
      Reachable(ss, acts, i - 1);
      assert acts[..i][..i - 1] == acts[..i - 1];
      TicketsStep(ss[i - 1], acts[i - 1], ss[i]);
      RefusalsStep(ss[i - 1], acts[i - 1], ss[i], Count(acts[..i - 1], TryPass));
    }
  }

  /** At most one thread is ever between Lock (or a passed TryLock) and Unlock. */
  lemma MutualExclusion(ss: seq<State>, acts: seq<Action>, i: nat, t: Tid, u: Tid)
    requires Run(ss, acts) && i < |ss|
    requires ss[i].PcOf(t).Critical? && ss[i].PcOf(u).Critical?
    ensures t == u
  {
    Reachable(ss, acts, i);
  }

  /** In every reachable state the tickets held are exactly [head, lock), one thread each. */
  lemma OutstandingTickets(ss: seq<State>, acts: seq<Action>, i: nat, k: nat)
    requires Run(ss, acts) && i < |ss|
    ensures ss[i].head <= k < ss[i].lock <==> Owned(ss[i], k)
    ensures forall t, u :: Holds(ss[i], t, k) && Holds(ss[i], u, k) ==> t == u
  {
    Reachable(ss, acts, i);
  }

  lemma HeadFollows(s: State, a: Action, s': State)
    requires Step(s, a, s')
    ensures s'.head == s.head + One(a.event == Unlock)
  {
  }

  lemma {:induction false} HeadCountsUnlocks(ss: seq<State>, acts: seq<Action>, i: nat, j: nat)
    requires Run(ss, acts) && i <= j < |ss|
    ensures ss[j].head == ss[i].head + Count(acts[i..j], Unlock)
    decreases j
  {
    hide Step, Init;
    if i < j {
      HeadCountsUnlocks(ss, acts, i, j - 1);
      assert acts[i..j][..j - 1 - i] == acts[i..j - 1];
      HeadFollows(ss[j - 1], acts[j - 1], ss[j]);
    } else {
      assert acts[i..j] == [];
    }
  }

  /** First come, first served, and exactly so: a thread that waits with ticket k enters
      after exactly k - head further unlocks, and by then every lower ticket is gone. */
  lemma EntersAfterExactlyItsTurn(ss: seq<State>, acts: seq<Action>, i: nat, j: nat, t: Tid, k: nat)
    requires Run(ss, acts) && i <= j < |ss|
    requires ss[i].PcOf(t) == Waiting(k) && ss[j].PcOf(t) == Critical(k)
    ensures Count(acts[i..j], Unlock) == k - ss[i].head
    ensures forall u, m :: Holds(ss[j], u, m) ==> m >= k
  {
    Reachable(ss, acts, i);
    assert Holds(ss[j], t, k);
    Reachable(ss, acts, j);
    HeadCountsUnlocks(ss, acts, i, j);
  }

  /** The lock is never stuck: while tickets are outstanding, the owner of the lowest one
      has a step that makes progress. */
  lemma NeverStuck(ss: seq<State>, acts: seq<Action>, i: nat) returns (a: Action, s': State)
    requires Run(ss, acts) && i < |ss| && ss[i].head < ss[i].lock
    ensures Step(ss[i], a, s') && (a.event.Enter? || a.event.Unlock?)
    ensures Holds(ss[i], a.tid, ss[i].head)
  {
    Reachable(ss, acts, i);
    var s := ss[i];
    assert Owned(s, s.head);
    var t :| Holds(s, t, s.head);
    if s.PcOf(t).Waiting? {
      a, s' := Action(t, Enter), s.At(t, Critical(s.head));
    } else {
      a, s' := Action(t, Unlock), s.At(t, Idle).(head := s.head + 1);
    }
  }

  /** A pass through TryLock keeps its increment of `try_lock_`, so over the whole life of
      a lock TryLock passes at most once, and once it has passed every later test is
      refused, held or not. */
  lemma TryLockPassesAtMostOnce(ss: seq<State>, acts: seq<Action>, i: nat)
    requires Run(ss, acts) && i < |ss|
    ensures Count(acts[..i], TryPass) <= 1
    ensures Count(acts[..i], TryPass) == 1 && i < |acts| ==>
              !acts[i].event.TryPass? && (acts[i].event.TryCount? ==> ss[i].tryLock > 0)
  {
    Reachable(ss, acts, i);
    if i < |acts| {
      assert acts[..i + 1][..i] == acts[..i];
      Reachable(ss, acts, i + 1);
    }
  }

  /** Exactly when `try_lock_` is free to be counted from zero: no TryLock has ever passed
      and none is under way. */
  lemma TryLockIsFreshExactly(ss: seq<State>, acts: seq<Action>, i: nat)
    requires Run(ss, acts) && i < |ss|
    ensures ss[i].tryLock == 0 <==> Count(acts[..i], TryPass) == 0 && forall t :: !InTest(ss[i].PcOf(t))
  {
    Reachable(ss, acts, i);
    var s := ss[i];
    if s.tryLock == 0 {
      forall t ensures !InTest(s.PcOf(t)) {
        InTestIsCounted(s, t);
      }
    }
    if forall t :: !InTest(s.PcOf(t)) {
      forall t ensures t !in Having(s.pcs, InTest) {
        assert t in s.pcs ==> s.PcOf(t) == s.pcs[t];
      }
      assert Having(s.pcs, InTest) == {};
    }
  }

  /** Thread t counts itself, makes the two loads in one of the two orders, and passes, with
      no other thread moving meanwhile. */
  ghost predicate PassesAlone(s: State, t: Tid) {
    exists load, s1, s2, s3 ::
      && (load == TryLoadLock || load == TryLoadHead)
      && Step(s, Action(t, TryCount), s1) && Step(s1, Action(t, load), s2) && Step(s2, Action(t, TryPass), s3)
  }

  /** A TryLock made while no other is under way passes if and only if the lock is free and none
      has passed before in the life of the lock. */
  lemma TryLockPassesExactlyWhen(ss: seq<State>, acts: seq<Action>, i: nat, t: Tid)
    requires Run(ss, acts) && i < |ss| && ss[i].PcOf(t).Idle?
    requires forall u :: !InTest(ss[i].PcOf(u))
    ensures PassesAlone(ss[i], t) <==> ss[i].head == ss[i].lock && Count(acts[..i], TryPass) == 0
  {
    TryLockIsFreshExactly(ss, acts, i);
    Reachable(ss, acts, i);
    var s := ss[i];
    if s.tryLock == 0 && s.head == s.lock {
      var s1 := s.At(t, TryCounted(0)).(tryLock := 1);
      var s2 := s1.At(t, TrySawLock(s.lock));
      assert Step(s, Action(t, TryCount), s1) && Step(s1, Action(t, TryLoadLock), s2);
      assert Step(s2, Action(t, TryPass), s2.At(t, Taking));
    }
  }

  /** Thread t calls Lock, takes a ticket and looks at `head_`, and is in, with no other thread
      moving meanwhile. */
  ghost predicate LocksAlone(s: State, t: Tid) {
    exists s1, s2, s3 ::
      Step(s, Action(t, CallLock), s1) && Step(s1, Action(t, TakeTicket), s2) && Step(s2, Action(t, Enter), s3)
      && s3.PcOf(t).Critical?
  }

  /** Lock lets a thread in at once if and only if no ticket is outstanding. */
  lemma LocksAtOnceExactlyWhen(ss: seq<State>, acts: seq<Action>, i: nat, t: Tid)
    requires Run(ss, acts) && i < |ss| && ss[i].PcOf(t).Idle?
    ensures LocksAlone(ss[i], t) <==> ss[i].head == ss[i].lock
  {
    Reachable(ss, acts, i);
    var s := ss[i];
    if s.head == s.lock {
      var s1 := s.At(t, Taking);
      var s2 := s1.At(t, Waiting(s.lock)).(lock := s.lock + 1);
      assert Step(s, Action(t, CallLock), s1) && Step(s1, Action(t, TakeTicket), s2);
      assert Step(s2, Action(t, Enter), s2.At(t, Critical(s.lock)));
    }
  }

  lemma Push(ss: seq<State>, acts: seq<Action>, a: Action, s: State) returns (ss': seq<State>, acts': seq<Action>)
    requires Run(ss, acts) && Step(ss[|acts|], a, s)
    ensures Run(ss', acts') && ss' == ss + [s] && acts' == acts + [a]
  {
    ss', acts' := ss + [s], acts + [a];
  }

  /** Thread 0 takes the lock by TryLock. */
  lemma TakenByTryLock() returns (ss: seq<State>, acts: seq<Action>)
    ensures Run(ss, acts) && |acts| == 4 && ss[4] == State(1, 0, 1, map[0 := Waiting(0)])
  {
    hide Run;
    ss, acts := Start();
    ss, acts := Push(ss, acts, Action(0, TryCount), State(0, 0, 1, map[0 := TryCounted(0)]));
    ss, acts := Push(ss, acts, Action(0, TryLoadLock), State(0, 0, 1, map[0 := TrySawLock(0)]));
    ss, acts := Push(ss, acts, Action(0, TryPass), State(0, 0, 1, map[0 := Taking]));
    ss, acts := Push(ss, acts, Action(0, TakeTicket), State(1, 0, 1, map[0 := Waiting(0)]));
  }

  lemma Start() returns (ss: seq<State>, acts: seq<Action>)
    ensures Run(ss, acts) && acts == [] && ss == [State(0, 0, 0, map[])]
  {
    ss, acts := [State(0, 0, 0, map[])], [];
  }

  /** A refusal on a free lock: thread 0 takes the lock by TryLock and releases it; then
      thread 1 is turned away although nobody holds a ticket. */
  lemma TryLockRefusedWhenFree() returns (ss: seq<State>, acts: seq<Action>)
    ensures Run(ss, acts) && |acts| == 8
    ensures ss[6].head == ss[6].lock && forall t :: ss[6].PcOf(t).Idle?
    ensures acts[6] == Action(1, TryCount) && acts[7] == Action(1, TryBusy)
    ensures ss[8].PcOf(1).TryRefused? && ss[8].head == ss[8].lock && forall t :: t != 1 ==> ss[8].PcOf(t).Idle?
  {
    hide Run;
    ss, acts := TakenByTryLock();
    RunIsLonger(ss, acts);
    ss, acts := Push(ss, acts, Action(0, Enter), State(1, 0, 1, map[0 := Critical(0)]));
    ss, acts := Push(ss, acts, Action(0, Unlock), State(1, 1, 1, map[0 := Idle]));
    ss, acts := Push(ss, acts, Action(1, TryCount), State(1, 1, 2, map[0 := Idle, 1 := TryCounted(1)]));
    ss, acts := Push(ss, acts, Action(1, TryBusy), State(1, 1, 2, map[0 := Idle, 1 := TryRefused]));
  }

  lemma RunIsLonger(ss: seq<State>, acts: seq<Action>)
    requires Run(ss, acts)
    ensures |ss| == |acts| + 1
  {
  }
}
