/** Calls of the ring queue: what one emplace and one pop do, alone and among others. */
module MpscRingCalls {
  import opened Wrappers
  import opened Threads
  import opened MpscRing

  // ---- which call a value comes from -------------------------------------------------

  /** The emplace(v) that thread t called at step b is still running at state j. */
  ghost predicate InCall<V>(ss: seq<State<V>>, acts: seq<Action<V>>, b: nat, j: nat, t: Tid, v: V) {
    && Run(ss, acts) && b < j < |ss| && acts[b] == Begin(t, v)
    && forall m :: b < m <= j ==> !ss[m].PcOf(t).Idle?
  }

  lemma BeginCarries<V>(s: State<V>, s': State<V>, t: Tid, v: V)
    requires 0 < s.Depth() <= U32 && Next(s, Begin(t, v)) == Some(s')
    ensures s.PcOf(t).Idle? && s'.PcOf(t) == Entering(v)
  {
  }

  /** A step on the way leaves the argument alone. */
  lemma StepCarries<V>(s: State<V>, a: Action<V>, s': State<V>, t: Tid)
    requires 0 < s.Depth() <= U32 && Next(s, a) == Some(s') && !s'.PcOf(t).Idle?
    ensures (!s.PcOf(t).Idle? && s'.PcOf(t).value == s.PcOf(t).value) || a == Begin(t, s'.PcOf(t).value)
  {
  }

  lemma {:induction false} CarriesItsArgument<V>(ss: seq<State<V>>, acts: seq<Action<V>>, b: nat, j: nat, t: Tid, v: V)
    requires InCall(ss, acts, b, j, t, v)
    ensures ss[j].PcOf(t).value == v
    decreases j
  {
    hide Next;
    assert 0 < ss[j - 1].Depth() <= U32 && Next(ss[j - 1], acts[j - 1]) == Some(ss[j]);
    if j == b + 1 {
      BeginCarries(ss[b], ss[j], t, v);
    } else {
      CarriesItsArgument(ss, acts, b, j - 1, t, v);
      StepCarries(ss[j - 1], acts[j - 1], ss[j], t);
      if acts[j - 1].Begin? && acts[j - 1].tid == t {
        BeginCarries(ss[j - 1], ss[j], t, acts[j - 1].value);
      }
    }
  }

  /** Step j is the fetch_add by which that call takes ticket k. */
  ghost predicate Takes<V>(ss: seq<State<V>>, acts: seq<Action<V>>, b: nat, j: nat, t: Tid, v: V, k: nat) {
    InCall(ss, acts, b, j, t, v) && j < |acts| && acts[j] == TakeTicket(t) && ss[j].tail == k
  }

  /** What a call enters into the order is its argument. */
  lemma CallIssuesItsArgument<V>(ss: seq<State<V>>, acts: seq<Action<V>>, b: nat, j: nat, t: Tid, v: V, k: nat)
    requires Takes(ss, acts, b, j, t, v, k)
    ensures Effect(ss[j], acts[j]) == Issue(v)
  {
    CarriesItsArgument(ss, acts, b, j, t, v);
    assert 0 < ss[j].Depth() <= U32 && Next(ss[j], acts[j]) == Some(ss[j + 1]);
  }

  lemma {:induction false} CallOf<V>(ss: seq<State<V>>, acts: seq<Action<V>>, j: nat, t: Tid) returns (b: nat, v: V)
    requires Run(ss, acts) && j < |ss| && !ss[j].PcOf(t).Idle?
    ensures InCall(ss, acts, b, j, t, v)
  {
    hide Next;
    if j > 0 {
      assert 0 < ss[j - 1].Depth() <= U32 && Next(ss[j - 1], acts[j - 1]) == Some(ss[j]);
      StepCarries(ss[j - 1], acts[j - 1], ss[j], t);
      if !ss[j - 1].PcOf(t).Idle? {
        b, v := CallOf(ss, acts, j - 1, t);
      } else {
        b, v := j - 1, ss[j].PcOf(t).value;
      }
    } else {
      StartsIdle(ss[0], t);
    }
  }

  lemma StartsIdle<V>(s: State<V>, t: Tid)
    requires Init(s)
    ensures s.PcOf(t).Idle?
  {
  }

  lemma TailFollows<V>(s: State<V>, a: Action<V>, s': State<V>)
    requires 0 < s.Depth() <= U32 && Next(s, a) == Some(s')
    ensures s'.tail == s.tail + One(a.TakeTicket?)
    ensures a.TakeTicket? ==> !s.PcOf(a.tid).Idle?
  {
  }

  lemma {:induction false} TailCountsIssues<V>(ss: seq<State<V>>, acts: seq<Action<V>>, i: nat)
    requires Run(ss, acts) && i < |ss|
    ensures |Issued(Ops(ss, acts, i))| == ss[i].tail
  {
    PopsInTicketOrder(ss, acts, i);
  }

  /** Every ticket below tail_ was taken by a call, which entered its argument at that place. */
  lemma {:induction false} TicketsCall<V>(ss: seq<State<V>>, acts: seq<Action<V>>, i: nat, k: nat)
    returns (b: nat, j: nat, t: Tid, v: V)
    requires Run(ss, acts) && i < |ss| && k < ss[i].tail
    ensures j < i && Takes(ss, acts, b, j, t, v, k)
    ensures |Issued(Ops(ss, acts, i))| == ss[i].tail && Issued(Ops(ss, acts, i))[k] == v
  {
    hide Next, Effect, InCall, Issued;
    if i > 0 {
      var a := acts[i - 1];
      TailCountsIssues(ss, acts, i - 1);
      TailCountsIssues(ss, acts, i);
      assert 0 < ss[i - 1].Depth() <= U32 && Next(ss[i - 1], a) == Some(ss[i]);
      TailFollows(ss[i - 1], a, ss[i]);
      HistoryGrows(Ops(ss, acts, i - 1), Effect(ss[i - 1], a));
      if k < ss[i - 1].tail {
        b, j, t, v := TicketsCall(ss, acts, i - 1, k);
      } else {
        j, t := i - 1, a.tid;
        b, v := CallOf(ss, acts, j, t);
        CallIssuesItsArgument(ss, acts, b, j, t, v, k);
      }
    }
  }

  /** The main result over calls: the k-th value delivered is the argument of the call that took
      ticket k. */
  lemma DeliversTheCallersArgument<V>(ss: seq<State<V>>, acts: seq<Action<V>>, i: nat, k: nat)
    returns (b: nat, j: nat, t: Tid, v: V)
    requires Run(ss, acts) && i < |ss| && k < |Delivered(Ops(ss, acts, i))|
    ensures j < i && Takes(ss, acts, b, j, t, v, k)
    ensures Delivered(Ops(ss, acts, i))[k] == v
  {
    PopsInTicketOrder(ss, acts, i);
    b, j, t, v := TicketsCall(ss, acts, i, k);
  }

  lemma {:induction false} TailGrows<V>(ss: seq<State<V>>, acts: seq<Action<V>>, i: nat, j: nat)
    requires Run(ss, acts) && i <= j < |ss|
    ensures ss[i].tail <= ss[j].tail
    decreases j
  {
    hide Next;
    if i < j {
      TailGrows(ss, acts, i, j - 1);
      assert 0 < ss[j - 1].Depth() <= U32 && Next(ss[j - 1], acts[j - 1]) == Some(ss[j]);
      TailFollows(ss[j - 1], acts[j - 1], ss[j]);
    }
  }

  /** No two calls take the same ticket. */
  lemma TicketsAreTakenOnce<V>(ss: seq<State<V>>, acts: seq<Action<V>>, i: nat, j: nat)
    requires Run(ss, acts) && i < j < |acts| && acts[i].TakeTicket? && acts[j].TakeTicket?
    ensures ss[i].tail < ss[j].tail
  {
    hide Next;
    assert 0 < ss[i].Depth() <= U32 && Next(ss[i], acts[i]) == Some(ss[i + 1]);
    TailFollows(ss[i], acts[i], ss[i + 1]);
    TailGrows(ss, acts, i + 1, j);
  }

  // ---- a call among others ------------------------------------------------------------

  function Shown<V>(op: Op<V>): seq<Op<V>> {
    if op.Silent? then [] else [op]
  }

  /** What the consumer's steps among b up to j deliver. */
  ghost function DeliveredIn<V>(ss: seq<State<V>>, acts: seq<Action<V>>, b: nat, j: nat): seq<Op<V>>
    requires Run(ss, acts) && b <= j <= |acts|
  {
    if j == b then []
    else DeliveredIn(ss, acts, b, j - 1) + if acts[j - 1].Advance? then Shown(Effect(ss[j - 1], acts[j - 1])) else []
  }

  lemma PopStep<V>(s: State<V>, a: Action<V>, s': State<V>)
    requires 0 < s.Depth() <= U32 && Next(s, a) == Some(s') && !s.consumer.Resting?
    ensures a.Advance? ==> s.consumer.Advancing? && s'.consumer.Resting? && Effect(s, a) == Deliver(s.consumer.value)
    ensures s'.consumer.Resting? ==>
              || a.Advance?
              || (a.PopTail? && s.consumer.GotHead? && s.consumer.head >= s.tail)
              || (a.Test? && s.consumer.Testing? && !ReadyAt(s, s.consumer.head))
  {
  }

  lemma {:induction false} NothingYet<V>(ss: seq<State<V>>, acts: seq<Action<V>>, b: nat, j: nat)
    requires Run(ss, acts) && b < j < |ss| && acts[b] == PopHead
    requires forall m :: b < m <= j ==> !ss[m].consumer.Resting?
    ensures DeliveredIn(ss, acts, b, j) == []
    decreases j
  {
    hide Next, Effect;
    assert 0 < ss[j - 1].Depth() <= U32 && Next(ss[j - 1], acts[j - 1]) == Some(ss[j]);
    if j == b + 1 {
      assert DeliveredIn(ss, acts, b, b) == [];
    } else {
      NothingYet(ss, acts, b, j - 1);
      PopStep(ss[j - 1], acts[j - 1], ss[j]);
    }
  }

  lemma LooksAtTheOldest<V>(s: State<V>, issued: seq<V>)
    requires Inv(s, issued)
    ensures !s.consumer.Resting? ==> s.consumer.head == s.head
  {
    hide Producers, Window;
  }

  /** A pop that has returned delivered one value, or none: none exactly if it met head_ not
      below tail_, or the oldest ticket not yet filled. */
  lemma PopDeliversOrFindsNothing<V>(ss: seq<State<V>>, acts: seq<Action<V>>, b: nat, j: nat)
    requires Run(ss, acts) && b + 1 < j < |ss| && acts[b] == PopHead
    requires (forall m :: b < m < j ==> !ss[m].consumer.Resting?) && ss[j].consumer.Resting?
    ensures 0 < ss[j - 1].Depth()
    ensures if acts[j - 1].PopTail? || acts[j - 1].Test?
            then DeliveredIn(ss, acts, b, j) == []
                 && (ss[j - 1].head >= ss[j - 1].tail || !ReadyAt(ss[j - 1], ss[j - 1].head))
            else acts[j - 1].Advance? && ss[j - 1].consumer.Advancing?
                 && DeliveredIn(ss, acts, b, j) == [Deliver(ss[j - 1].consumer.value)]
  {
    hide Next, Effect, Inv, ReadyAt, DeliveredIn;
    PopsInTicketOrder(ss, acts, j - 1);
    var s := ss[j - 1];
    LooksAtTheOldest(s, Issued(Ops(ss, acts, j - 1)));
    assert 0 < s.Depth() <= U32 && Next(s, acts[j - 1]) == Some(ss[j]);
    NothingYet(ss, acts, b, j - 1);
    PopStep(s, acts[j - 1], ss[j]);
    OneStepMore(ss, acts, b, j);
  }

  lemma OneStepMore<V>(ss: seq<State<V>>, acts: seq<Action<V>>, b: nat, j: nat)
    requires Run(ss, acts) && b < j < |ss|
    ensures DeliveredIn(ss, acts, b, j)
         == DeliveredIn(ss, acts, b, j - 1) + if acts[j - 1].Advance? then Shown(Effect(ss[j - 1], acts[j - 1])) else []
  {
    hide Next, Effect;
  }

  // ---- a call left alone halfway ---------------------------------------------------------

  function OwnAction<V>(pc: Pc<V>, t: Tid): Action<V> {
    match pc
    case Idle => LoadHead(t)
    case Entering(_) => LoadHead(t)
    case SawHead(_, _) => TakeTicket(t)
    case Sizing(_, _, _) => Size(t)
    case Spinning(_, _) => Retry(t)
    case Clearing(_, _) => ClearSlot(t)
    case Storing(_, _) => StoreValue(t)
    case Flagging(_, _) => SetReady(t)
  }

  function Rank<V>(pc: Pc<V>): nat {
    match pc
    case Idle => 0
    case Entering(_) => 7
    case SawHead(_, _) => 6
    case Sizing(_, _, _) => 5
    case Spinning(_, _) => 4
    case Clearing(_, _) => 3
    case Storing(_, _) => 2
    case Flagging(_, _) => 1
  }

  /** The ticket a call has, or will take. */
  function Due<V>(s: State<V>, pc: Pc<V>): nat {
    if pc.Idle? || pc.Entering? || pc.SawHead? then s.tail else pc.ticket
  }

  lemma OwnStep<V>(s: State<V>, t: Tid) returns (s1: State<V>)
    requires 0 < s.Depth() <= U32 && !s.PcOf(t).Idle? && Due(s, s.PcOf(t)) < s.head + s.Depth()
    ensures Next(s, OwnAction(s.PcOf(t), t)) == Some(s1) && Rank(s1.PcOf(t)) < Rank(s.PcOf(t))
    ensures s1.Depth() == s.Depth() && s1.head == s.head
    ensures Effect(s, OwnAction(s.PcOf(t), t)) == if s.PcOf(t).SawHead? then Issue(s.PcOf(t).value) else Silent
    ensures s1.PcOf(t).Idle? <==> s.PcOf(t).Flagging?
    ensures !s1.PcOf(t).Idle? ==> s1.PcOf(t).value == s.PcOf(t).value && Due(s1, s1.PcOf(t)) == Due(s, s.PcOf(t))
    ensures s1.PcOf(t).Entering? || s1.PcOf(t).SawHead? <==> s.PcOf(t).Entering?
  {
    ProducerSlotAgrees(s.Depth(), Due(s, s.PcOf(t)));
    s1 := Next(s, OwnAction(s.PcOf(t), t)).value;
  }

  /** A producer left alone, wherever it is in emplace, returns when there is room for its ticket;
      its value enters the order on the way, unless it has already. */
  lemma EmplaceFinishes<V>(s: State<V>, t: Tid) returns (p: seq<Action<V>>, s': State<V>)
    requires 0 < s.Depth() <= U32 && !s.PcOf(t).Idle? && Due(s, s.PcOf(t)) < s.head + s.Depth()
    ensures Does(s, p, if s.PcOf(t).Entering? || s.PcOf(t).SawHead? then [Issue(s.PcOf(t).value)] else [], s')
    ensures s'.PcOf(t).Idle? && Alone(p, t)
    decreases Rank(s.PcOf(t))
  {
    hide Next, Effect, Rank, Does, OwnAction;
    var a := OwnAction(s.PcOf(t), t);
    var s1 := OwnStep(s, t);
    if s1.PcOf(t).Idle? {
      DoesNothing(s1);
      p, s' := [], s1;
    } else {
      p, s' := EmplaceFinishes(s1, t);
    }
    var rest := if s1.PcOf(t).Entering? || s1.PcOf(t).SawHead? then [Issue(s1.PcOf(t).value)] else [];
    First(s, a, s1, p, rest, s');
    OwnIsOwn(s.PcOf(t), t);
    p := [a] + p;
  }

  lemma OwnIsOwn<V>(pc: Pc<V>, t: Tid)
    ensures IsStepOf(OwnAction(pc, t), t)
  {
  }

  /** A step of t inside its call. */
  predicate IsStepOf<V>(a: Action<V>, t: Tid) {
    (a.LoadHead? || a.TakeTicket? || a.Size? || a.Retry? || a.ClearSlot? || a.StoreValue? || a.SetReady?) && a.tid == t
  }

  predicate Alone<V>(p: seq<Action<V>>, t: Tid) {
    forall i :: 0 <= i < |p| ==> IsStepOf(p[i], t)
  }

  /** Without room for its ticket a call alone cannot return. */
  ghost predicate Waits<V>(s: State<V>, t: Tid) {
    var pc := s.PcOf(t);
    && (pc.Entering? || pc.SawHead? || pc.Sizing? || pc.Spinning?)
    && (pc.SawHead? || pc.Sizing? ==> pc.head <= s.head)
    && Due(s, pc) >= s.head + s.Depth()
  }

  lemma WaitsOn<V>(s: State<V>, a: Action<V>, s': State<V>, t: Tid)
    requires 0 < s.Depth() <= U32 && Waits(s, t) && IsStepOf(a, t) && Next(s, a) == Some(s')
    ensures Waits(s', t)
  {
  }

  lemma {:induction false} WaitsForEver<V>(s: State<V>, t: Tid, p: seq<Action<V>>, ops: seq<Op<V>>, s': State<V>)
    requires Waits(s, t) && Alone(p, t) && Does(s, p, ops, s')
    ensures !s'.PcOf(t).Idle?
    decreases |p|
  {
    hide Next, Effect;
    if p != [] {
      var s1 := Next(s, p[0]).value;
      WaitsOn(s, p[0], s1, t);
      WaitsForEver(s1, t, p[1..], ops[|Shown(Effect(s, p[0]))|..], s');
    }
  }

  ghost predicate ReturnsAlone<V(!new)>(s: State<V>, t: Tid) {
    exists p, ops, s' :: Alone(p, t) && Does(s, p, ops, s') && s'.PcOf(t).Idle?
  }

  /** In every reachable state a call of emplace, wherever it is, returns by its own steps if and
      only if its ticket is within a ring's length of head_. */
  lemma EmplaceReturnsExactlyWhen<V(!new)>(ss: seq<State<V>>, acts: seq<Action<V>>, i: nat, t: Tid)
    requires Run(ss, acts) && i < |ss| && !ss[i].PcOf(t).Idle?
    ensures ReturnsAlone(ss[i], t) <==> Due(ss[i], ss[i].PcOf(t)) < ss[i].head + ss[i].Depth()
  {
    PopsInTicketOrder(ss, acts, i);
    var s := ss[i];
    hide Does;
    if Due(s, s.PcOf(t)) < s.head + s.Depth() {
      var p, s' := EmplaceFinishes(s, t);
    } else {
      NoRoomWaits(s, Issued(Ops(ss, acts, i)), t);
      forall p, ops, s' | Alone(p, t) && Does(s, p, ops, s') ensures !s'.PcOf(t).Idle? {
        WaitsForEver(s, t, p, ops, s');
      }
    }
  }

  lemma NoRoomWaits<V>(s: State<V>, issued: seq<V>, t: Tid)
    requires Inv(s, issued) && !s.PcOf(t).Idle? && Due(s, s.PcOf(t)) >= s.head + s.Depth()
    ensures Waits(s, t)
  {
    hide Window, Consumer;
  }

  // ---- a call alone ---------------------------------------------------------------------

  /** These actions lead from s to s' and show these effects. */
  ghost predicate Does<V>(s: State<V>, p: seq<Action<V>>, ops: seq<Op<V>>, s': State<V>)
    decreases |p|
  {
    if p == [] then s' == s && ops == []
    else
      && 0 < s.Depth() <= U32 && Next(s, p[0]).Some?
      && var shown := Shown(Effect(s, p[0]));
      shown <= ops && Does(Next(s, p[0]).value, p[1..], ops[|shown|..], s')
  }

  lemma DoesNothing<V>(s: State<V>)
    ensures Does(s, [], [], s)
  {
  }

  lemma First<V>(s: State<V>, a: Action<V>, s1: State<V>, p: seq<Action<V>>, ops: seq<Op<V>>, s': State<V>)
    requires 0 < s.Depth() <= U32 && Next(s, a) == Some(s1) && Does(s1, p, ops, s')
    ensures Does(s, [a] + p, Shown(Effect(s, a)) + ops, s')
    ensures Effect(s, a).Silent? ==> Does(s, [a] + p, ops, s')
    ensures !Effect(s, a).Silent? && ops == [] ==> Does(s, [a] + p, [Effect(s, a)], s')
  {
    hide Next, Effect;
    assert ([a] + p)[1..] == p;
    assert (Shown(Effect(s, a)) + ops)[|Shown(Effect(s, a))|..] == ops;
    assert [] + ops == ops && [Effect(s, a)] + [] == [Effect(s, a)];
  }

  /** A pop that is not disturbed takes the oldest value if its ticket is filled, */
  lemma PopAlone<V>(ss: seq<State<V>>, acts: seq<Action<V>>, i: nat) returns (s': State<V>)
    requires Run(ss, acts) && i < |ss| && ss[i].consumer.Resting? && ss[i].Depth() > 0
    requires ss[i].head < ss[i].tail && ReadyAt(ss[i], ss[i].head)
    ensures |Issued(Ops(ss, acts, i))| == ss[i].tail
    ensures Does(ss[i], [PopHead, PopTail, Test, Take, Unflag, Advance],
                 [Deliver(Issued(Ops(ss, acts, i))[ss[i].head])], s')
    ensures s'.head == ss[i].head + 1 && s'.tail == ss[i].tail && s'.consumer.Resting? && s'.pcs == ss[i].pcs
    ensures s'.slots == ss[i].slots[SlotOf(ss[i].Depth(), ss[i].head) :=
                                    ss[i].slots[SlotOf(ss[i].Depth(), ss[i].head)].(ready := false)]
  {
    PopsInTicketOrder(ss, acts, i);
    OldestIsFilled(ss[i], Issued(Ops(ss, acts, i)));
    s' := PopSteps(ss[i]);
  }

  lemma OldestIsFilled<V>(s: State<V>, issued: seq<V>)
    requires Inv(s, issued) && s.consumer.Resting? && s.head < s.tail && ReadyAt(s, s.head)
    ensures ValueAt(s, s.head) == issued[s.head]
  {
    assert !Pending(s, s.head);
    assert Filled(s, issued, s.head);
  }

  lemma PopSteps<V>(s: State<V>) returns (s': State<V>)
    requires 0 < s.Depth() <= U32 && s.consumer.Resting? && s.head < s.tail && ReadyAt(s, s.head)
    ensures Does(s, [PopHead, PopTail, Test, Take, Unflag, Advance], [Deliver(ValueAt(s, s.head))], s')
    ensures var i := SlotOf(s.Depth(), s.head);
            s' == s.(head := s.head + 1, slots := s.slots[i := s.slots[i].(ready := false)])
  {
    var h, v, i := s.head, ValueAt(s, s.head), SlotOf(s.Depth(), s.head);
    var s1, s2, s3 := s.(consumer := GotHead(h)), s.(consumer := Testing(h)), s.(consumer := Cpc.Taking(h));
    var s4 := s.(consumer := Unflagging(h, v));
    var s5 := s.(consumer := Advancing(h, v), slots := s.slots[i := s.slots[i].(ready := false)]);
    s' := s5.(head := h + 1, consumer := Resting);
    PopLooks(s);
    PopTakes(s, s4, s5, s');
    hide Next, Effect, Does;
    DoesNothing(s');
    First(s5, Advance, s', [], [], s');
    First(s4, Unflag, s5, [Advance], [Deliver(v)], s');
    First(s3, Take, s4, [Unflag, Advance], [Deliver(v)], s');
    First(s2, Test, s3, [Take, Unflag, Advance], [Deliver(v)], s');
    First(s1, PopTail, s2, [Test, Take, Unflag, Advance], [Deliver(v)], s');
    First(s, PopHead, s1, [PopTail, Test, Take, Unflag, Advance], [Deliver(v)], s');
  }

  lemma PopLooks<V>(s: State<V>)
    requires 0 < s.Depth() <= U32 && s.consumer.Resting?
    ensures var s1, s2 := s.(consumer := GotHead(s.head)), s.(consumer := Testing(s.head));
            && Next(s, PopHead) == Some(s1)
            && Next(s1, PopTail) == Some(if s.head >= s.tail then s else s2)
            && Next(s2, Test) == Some(if ReadyAt(s, s.head) then s.(consumer := Cpc.Taking(s.head)) else s)
    ensures forall r: State<V> :: Effect(r, PopHead).Silent? && Effect(r, PopTail).Silent? && Effect(r, Test).Silent?
  {
  }

  lemma PopTakes<V>(s: State<V>, s4: State<V>, s5: State<V>, s': State<V>)
    requires 0 < s.Depth() <= U32
    requires s4 == s.(consumer := Unflagging(s.head, ValueAt(s, s.head)))
    requires var i := SlotOf(s.Depth(), s.head);
             s5 == s.(consumer := Advancing(s.head, ValueAt(s, s.head)), slots := s.slots[i := s.slots[i].(ready := false)])
    requires s' == s5.(head := s.head + 1, consumer := Resting)
    ensures Next(s.(consumer := Cpc.Taking(s.head)), Take) == Some(s4) && Next(s4, Unflag) == Some(s5)
    ensures Next(s5, Advance) == Some(s') && Effect(s5, Advance) == Deliver(ValueAt(s, s.head))
    ensures forall r: State<V> :: Effect(r, Take).Silent? && Effect(r, Unflag).Silent?
  {
  }

  /** ... and otherwise comes back empty-handed and has changed nothing. */
  lemma PopAloneFindsNothing<V>(s: State<V>)
    requires 0 < s.Depth() <= U32 && s.consumer.Resting?
    requires s.head >= s.tail || !ReadyAt(s, s.head)
    ensures Does(s, if s.head >= s.tail then [PopHead, PopTail] else [PopHead, PopTail, Test], [], s)
  {
    PopLooks(s);
    var s1, s2 := s.(consumer := GotHead(s.head)), s.(consumer := Testing(s.head));
    hide Next, Effect, Does;
    DoesNothing(s);
    if s.head >= s.tail {
      First(s1, PopTail, s, [], [], s);
      First(s, PopHead, s1, [PopTail], [], s);
    } else {
      First(s2, Test, s, [], [], s);
      First(s1, PopTail, s2, [Test], [], s);
      First(s, PopHead, s1, [PopTail, Test], [], s);
    }
  }

  function Emplace<V>(t: Tid, v: V): seq<Action<V>> {
    [Begin(t, v), LoadHead(t), TakeTicket(t), Size(t), ClearSlot(t), StoreValue(t), SetReady(t)]
  }

  /** An emplace(v) that is not disturbed, on a ring with room, fills the next ticket with v. */
  lemma EmplaceAlone<V>(s: State<V>, t: Tid, v: V) returns (s': State<V>)
    requires 0 < s.Depth() <= U32 && s.PcOf(t).Idle? && s.head <= s.tail < s.head + s.Depth()
    ensures Does(s, Emplace(t, v), [Issue(v)], s')
    ensures s' == s.(tail := s.tail + 1, slots := s.slots[SlotOf(s.Depth(), s.tail) := Slot(true, v)],
                     pcs := s.pcs[t := Pc.Idle])
  {
    ProducerSlotAgrees(s.Depth(), s.tail);
    hide Next, Effect, Does, ProducerSlot, SlotOf;
    var s4 := s.At(t, Clearing(v, s.tail)).(tail := s.tail + 1);
    s' := EmplaceWrites(s4, t, v, s.tail);
    SamePcs(s.pcs, t, Clearing(v, s.tail), Pc.Idle);
    EmplaceFromStart(s, t, v, s4, [ClearSlot(t), StoreValue(t), SetReady(t)], s');
    assert [Begin(t, v), LoadHead(t), TakeTicket(t), Size(t)] + [ClearSlot(t), StoreValue(t), SetReady(t)] == Emplace(t, v);
  }

  /** The first four steps, up to the space check. */
  lemma EmplaceFromStart<V>(s: State<V>, t: Tid, v: V, s4: State<V>, p: seq<Action<V>>, s': State<V>)
    requires 0 < s.Depth() <= U32 && s.PcOf(t).Idle? && s.head <= s.tail
    requires s4 == s.At(t, if s.tail - s.head < s.Depth() then Clearing(v, s.tail) else Spinning(v, s.tail)).(tail := s.tail + 1)
    requires Does(s4, p, [], s')
    ensures Does(s, [Begin(t, v), LoadHead(t), TakeTicket(t), Size(t)] + p, [Issue(v)], s')
  {
    var s1, s2 := s.At(t, Entering(v)), s.At(t, SawHead(v, s.head));
    var s3 := s.At(t, Sizing(v, s.tail, s.head)).(tail := s.tail + 1);
    EmplaceEnters(s, t, v, s1, s2, s3, s4);
    hide Next, Effect, Does;
    First(s3, Size(t), s4, p, [], s');
    First(s2, TakeTicket(t), s3, [Size(t)] + p, [], s');
    First(s1, LoadHead(t), s2, [TakeTicket(t)] + ([Size(t)] + p), [Issue(v)], s');
    First(s, Begin(t, v), s1, [LoadHead(t)] + ([TakeTicket(t)] + ([Size(t)] + p)), [Issue(v)], s');
    assert [Begin(t, v)] + ([LoadHead(t)] + ([TakeTicket(t)] + ([Size(t)] + p)))
        == [Begin(t, v), LoadHead(t), TakeTicket(t), Size(t)] + p;
  }

  lemma SamePcs<V>(pcs: map<Tid, Pc<V>>, t: Tid, x: Pc<V>, y: Pc<V>)
    ensures pcs[t := x][t := y] == pcs[t := y]
  {
  }

  lemma EmplaceEnters<V>(s: State<V>, t: Tid, v: V, s1: State<V>, s2: State<V>, s3: State<V>, s4: State<V>)
    requires 0 < s.Depth() <= U32 && s.PcOf(t).Idle?
    requires s1 == s.At(t, Entering(v)) && s2 == s.At(t, SawHead(v, s.head))
    requires s3 == s.At(t, Sizing(v, s.tail, s.head)).(tail := s.tail + 1)
    requires s4 == s.At(t, if s.tail - s.head < s.Depth() then Clearing(v, s.tail) else Spinning(v, s.tail)).(tail := s.tail + 1)
    ensures Next(s, Begin(t, v)) == Some(s1) && Next(s1, LoadHead(t)) == Some(s2)
    ensures Next(s2, TakeTicket(t)) == Some(s3) && Next(s3, Size(t)) == Some(s4)
    ensures Effect(s2, TakeTicket(t)) == Issue(v)
    ensures forall r: State<V> :: Effect(r, Begin(t, v)).Silent? && Effect(r, LoadHead(t)).Silent? && Effect(r, Size(t)).Silent?
  {
    SamePcs(s.pcs, t, Entering(v), SawHead(v, s.head));
    SamePcs(s.pcs, t, SawHead(v, s.head), Sizing(v, s.tail, s.head));
    SamePcs(s.pcs, t, Sizing(v, s.tail, s.head), Clearing(v, s.tail));
    SamePcs(s.pcs, t, Sizing(v, s.tail, s.head), Spinning(v, s.tail));
  }

  lemma Clears<V>(s: State<V>, t: Tid, v: V, k: nat, s': State<V>)
    requires 0 < s.Depth() <= U32 && s.PcOf(t) == Clearing(v, k)
    requires var i := ProducerSlot(s.Depth(), k);
             s' == s.At(t, Storing(v, k)).(slots := s.slots[i := s.slots[i].(ready := false)])
    ensures Next(s, ClearSlot(t)) == Some(s') && Effect(s, ClearSlot(t)).Silent?
  {
  }

  lemma Stores<V>(s: State<V>, t: Tid, v: V, k: nat, s': State<V>)
    requires 0 < s.Depth() <= U32 && s.PcOf(t) == Storing(v, k)
    requires var i := ProducerSlot(s.Depth(), k);
             s' == s.At(t, Flagging(v, k)).(slots := s.slots[i := s.slots[i].(value := v)])
    ensures Next(s, StoreValue(t)) == Some(s') && Effect(s, StoreValue(t)).Silent?
  {
  }

  lemma Flags<V>(s: State<V>, t: Tid, v: V, k: nat, s': State<V>)
    requires 0 < s.Depth() <= U32 && s.PcOf(t) == Flagging(v, k)
    requires var i := ProducerSlot(s.Depth(), k);
             s' == s.At(t, Pc.Idle).(slots := s.slots[i := s.slots[i].(ready := true)])
    ensures Next(s, SetReady(t)) == Some(s') && Effect(s, SetReady(t)).Silent?
  {
  }

  /** Past the space check the slot is rebuilt and marked. */
  lemma EmplaceWrites<V>(s: State<V>, t: Tid, v: V, k: nat) returns (s': State<V>)
    requires 0 < s.Depth() <= U32 && s.PcOf(t) == Clearing(v, k)
    ensures Does(s, [ClearSlot(t), StoreValue(t), SetReady(t)], [], s')
    ensures s' == s.(slots := s.slots[ProducerSlot(s.Depth(), k) := Slot(true, v)], pcs := s'.pcs)
    ensures s'.pcs == s.pcs[t := Pc.Idle]
  {
    var i := ProducerSlot(s.Depth(), k);
    ProducerSlotAgrees(s.Depth(), k);
    assert i < |s.slots|;
    hide Next, Effect, Does, ProducerSlot;
    var s1 := s.At(t, Storing(v, k)).(slots := s.slots[i := s.slots[i].(ready := false)]);
    var s2 := s1.At(t, Flagging(v, k)).(slots := s1.slots[i := s1.slots[i].(value := v)]);
    s' := s2.At(t, Pc.Idle).(slots := s2.slots[i := s2.slots[i].(ready := true)]);
    Clears(s, t, v, k, s1);
    Stores(s1, t, v, k, s2);
    Flags(s2, t, v, k, s');
    SamePcs(s.pcs, t, Storing(v, k), Flagging(v, k));
    SamePcs(s.pcs, t, Flagging(v, k), Pc.Idle);
    DoesNothing(s');
    First(s2, SetReady(t), s', [], [], s');
    First(s1, StoreValue(t), s2, [SetReady(t)], [], s');
    First(s, ClearSlot(t), s1, [StoreValue(t), SetReady(t)], [], s');
  }

  /** On a full ring it takes its ticket and then waits: alone it stays where it is for ever. */
  lemma EmplaceAloneWaits<V>(s: State<V>, t: Tid, v: V) returns (s': State<V>)
    requires 0 < s.Depth() <= U32 && s.PcOf(t).Idle? && s.tail >= s.head + s.Depth()
    ensures Does(s, [Begin(t, v), LoadHead(t), TakeTicket(t), Size(t)], [Issue(v)], s')
    ensures s' == s.At(t, Spinning(v, s.tail)).(tail := s.tail + 1)
    ensures Next(s', Retry(t)) == Some(s')
  {
    s' := s.At(t, Spinning(v, s.tail)).(tail := s.tail + 1);
    assert Next(s', Retry(t)) == Some(s') by {
      SamePcs(s.pcs, t, Spinning(v, s.tail), Spinning(v, s.tail));
    }
    hide Next, Effect, Does;
    DoesNothing(s');
    EmplaceFromStart(s, t, v, s', [], s');
    assert [Begin(t, v), LoadHead(t), TakeTicket(t), Size(t)] + [] == [Begin(t, v), LoadHead(t), TakeTicket(t), Size(t)];
  }
}
