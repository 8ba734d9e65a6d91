/** `ring_queue_base` with the MPSC flags (atomic push and pop, wait for space): any number
    of producers, one consumer, a fixed number of slots each with a ready bit.

    One step is one atomic load or fetch_add, one access to a slot's ready bit, or one
    access to a slot's value. A producer takes its ticket before it knows that there is
    space for it, and waits on `head_` until there is. */
module MpscRing {
  import opened Wrappers
  import opened Threads

  datatype Slot<V> = Slot(ready: bool, value: V)

  /** A producer inside emplace(value). */
  datatype Pc<V> =
    | Idle
    | Entering(value: V)                        // about to load head_
    | SawHead(value: V, head: nat)              // about to fetch_add tail_
    | Sizing(value: V, ticket: nat, head: nat)  // has a ticket, compares sizes
    | Spinning(value: V, ticket: nat)           // no space, about to load head_ again
    | Clearing(value: V, ticket: nat)           // has space, about to rebuild the slot: ready bit
    | Storing(value: V, ticket: nat)            // ... then the value
    | Flagging(value: V, ticket: nat)           // about to set the ready bit

  /** The consumer inside pop(). */
  datatype Cpc<V> =
    | Resting
    | GotHead(head: nat)               // about to load tail_
    | Testing(head: nat)               // head < tail, about to test the ready bit
    | Taking(head: nat)                // about to move the value out
    | Unflagging(head: nat, value: V)  // about to clear the ready bit
    | Advancing(head: nat, value: V)   // about to fetch_add head_

  datatype State<V> = State(slots: seq<Slot<V>>, head: nat, tail: nat,
                            pcs: map<Tid, Pc<V>>, consumer: Cpc<V>) {
    function PcOf(t: Tid): Pc<V> {
      if t in pcs then pcs[t] else Idle
    }

    function At(t: Tid, pc: Pc<V>): State<V> {
      this.(pcs := pcs[t := pc])
    }

    function Depth(): nat {
      |slots|
    }
  }

  const U32: nat := 0x1_0000_0000

  /** The consumer indexes with the full ticket, the producers through a 32-bit index. */
  function SlotOf(depth: nat, ticket: nat): nat
    requires depth > 0
  {
    ticket % depth
  }

  function ProducerSlot(depth: nat, ticket: nat): nat
    requires depth > 0
  {
    (ticket % depth) % U32
  }

  predicate Init<V>(s: State<V>) {
    && 0 < s.Depth() <= U32
    && (forall i | 0 <= i < |s.slots| :: !s.slots[i].ready)
    && s.head == 0 && s.tail == 0 && s.pcs == map[] && s.consumer == Resting
  }

  datatype Action<V> =
    | Begin(tid: Tid, value: V) | LoadHead(tid: Tid) | TakeTicket(tid: Tid) | Size(tid: Tid) | Retry(tid: Tid)
    | ClearSlot(tid: Tid) | StoreValue(tid: Tid) | SetReady(tid: Tid)
    | PopHead | PopTail | Test | Take | Unflag | Advance

  function Next<V>(s: State<V>, a: Action<V>): Option<State<V>>
    requires 0 < s.Depth() <= U32
  {
    match a
    case Begin(t, v) =>
      if s.PcOf(t).Idle? then Some(s.At(t, Entering(v))) else None
    case LoadHead(t) =>
      var pc := s.PcOf(t);
      if pc.Entering? then Some(s.At(t, SawHead(pc.value, s.head))) else None
    case TakeTicket(t) =>
      var pc := s.PcOf(t);
      if pc.SawHead? then Some(s.At(t, Sizing(pc.value, s.tail, pc.head)).(tail := s.tail + 1)) else None
    case Size(t) =>
      var pc := s.PcOf(t);
      if !pc.Sizing? then None
      else if pc.ticket - pc.head + 1 > s.Depth() then Some(s.At(t, Spinning(pc.value, pc.ticket)))
      else Some(s.At(t, Clearing(pc.value, pc.ticket)))
    case Retry(t) =>
      var pc := s.PcOf(t);
      if !pc.Spinning? then None
      else if pc.ticket - s.head + 1 <= s.Depth() then Some(s.At(t, Clearing(pc.value, pc.ticket)))
      else Some(s)
    case ClearSlot(t) =>
      var pc := s.PcOf(t);
      if !pc.Clearing? then None else
      var i := ProducerSlot(s.Depth(), pc.ticket);
      Some(s.At(t, Storing(pc.value, pc.ticket)).(slots := s.slots[i := s.slots[i].(ready := false)]))
    case StoreValue(t) =>
      var pc := s.PcOf(t);
      if !pc.Storing? then None else
      var i := ProducerSlot(s.Depth(), pc.ticket);
      Some(s.At(t, Flagging(pc.value, pc.ticket)).(slots := s.slots[i := s.slots[i].(value := pc.value)]))
    case SetReady(t) =>
      var pc := s.PcOf(t);
      if !pc.Flagging? then None else
      var i := ProducerSlot(s.Depth(), pc.ticket);
      Some(s.At(t, Idle).(slots := s.slots[i := s.slots[i].(ready := true)]))
    case PopHead =>
      if s.consumer.Resting? then Some(s.(consumer := GotHead(s.head))) else None
    case PopTail =>
      if !s.consumer.GotHead? then None
      else if s.consumer.head >= s.tail then Some(s.(consumer := Resting))
      else Some(s.(consumer := Testing(s.consumer.head)))
    case Test =>
      if !s.consumer.Testing? then None
      else if s.slots[SlotOf(s.Depth(), s.consumer.head)].ready then Some(s.(consumer := Taking(s.consumer.head)))
      else Some(s.(consumer := Resting))
    case Take =>
      if !s.consumer.Taking? then None
      else Some(s.(consumer := Unflagging(s.consumer.head, s.slots[SlotOf(s.Depth(), s.consumer.head)].value)))
    case Unflag =>
      if !s.consumer.Unflagging? then None else
      var i := SlotOf(s.Depth(), s.consumer.head);
      Some(s.(slots := s.slots[i := s.slots[i].(ready := false)],
              consumer := Advancing(s.consumer.head, s.consumer.value)))
    case Advance =>
      if s.consumer.Advancing? then Some(s.(head := s.head + 1, consumer := Resting)) else None
  }

  // ---- invariant -------------------------------------------------------------------

  predicate Holds<V>(s: State<V>, t: Tid, k: int) {
    var pc := s.PcOf(t);
    (pc.Sizing? || pc.Spinning? || pc.Clearing? || pc.Storing? || pc.Flagging?) && pc.ticket == k
  }

  /** Past the space check. */
  predicate HasSpace<V>(pc: Pc<V>) {
    pc.Clearing? || pc.Storing? || pc.Flagging?
  }

  ghost predicate Pending<V>(s: State<V>, k: int) {
    exists t :: Holds(s, t, k)
  }

  predicate ReadyAt<V>(s: State<V>, k: nat)
    requires s.Depth() > 0
  {
    s.slots[SlotOf(s.Depth(), k)].ready
  }

  function ValueAt<V>(s: State<V>, k: nat): V
    requires s.Depth() > 0
  {
    s.slots[SlotOf(s.Depth(), k)].value
  }

  /** Ticket k has been filled and not yet been emptied. */
  ghost predicate Filled<V>(s: State<V>, issued: seq<V>, k: nat)
    requires s.Depth() > 0 && k < |issued|
  {
    k < s.head + s.Depth() && ReadyAt(s, k) && ValueAt(s, k) == issued[k]
  }

  /** Ticket k has been emptied, and head_ is about to pass it. */
  predicate Emptied<V>(s: State<V>, k: nat) {
    s.consumer.Advancing? && k == s.head
  }

  /** Producers: distinct outstanding tickets with the value they were issued for, and in
      the window as soon as they have passed the space check. */
  ghost predicate Producers<V>(s: State<V>, issued: seq<V>)
    requires s.Depth() > 0 && |issued| == s.tail
  {
    && (forall t, k :: Holds(s, t, k) ==> s.head <= k < s.tail && s.PcOf(t).value == issued[k])
    && (forall t, u, k :: Holds(s, t, k) && Holds(s, u, k) ==> t == u)
    && (forall t :: s.PcOf(t).SawHead? || s.PcOf(t).Sizing? ==> s.PcOf(t).head <= s.head)
    && (forall t :: HasSpace(s.PcOf(t)) ==> s.PcOf(t).ticket < s.head + s.Depth())
    && (forall t :: s.PcOf(t).Flagging? ==> ValueAt(s, s.PcOf(t).ticket) == s.PcOf(t).value)
  }

  /** Outstanding tickets are in a producer's hand, filled, or just emptied; and within the
      window [head, head + depth) only filled tickets have their ready bit set. */
  ghost predicate Window<V>(s: State<V>, issued: seq<V>)
    requires s.Depth() > 0 && |issued| == s.tail
  {
    && (forall k: nat :: s.head <= k < s.tail ==> Pending(s, k) || Filled(s, issued, k) || Emptied(s, k))
    && (forall k: nat :: s.head <= k < s.head + s.Depth() && (k >= s.tail || Pending(s, k) || Emptied(s, k)) ==> !ReadyAt(s, k))
  }

  ghost predicate Consumer<V>(s: State<V>, issued: seq<V>)
    requires s.Depth() > 0 && |issued| == s.tail
  {
    && (!s.consumer.Resting? ==> s.consumer.head == s.head)
    && (!s.consumer.Resting? && !s.consumer.GotHead? ==> s.head < s.tail)
    && (s.consumer.Taking? || s.consumer.Unflagging? ==> ReadyAt(s, s.head))
    && (s.consumer.Unflagging? || s.consumer.Advancing? ==> s.consumer.value == issued[s.head])
    && (s.consumer.Advancing? ==> !Pending(s, s.head))
  }

  ghost predicate Inv<V>(s: State<V>, issued: seq<V>) {
    && 0 < s.Depth() <= U32
    && s.head <= s.tail == |issued|
    && Producers(s, issued) && Window(s, issued) && Consumer(s, issued)
  }

  // ---- slots of a window ------------------------------------------------------------

  lemma NoMultipleInside(depth: nat, x: int)
    requires depth > 0
    ensures depth * x <= 0 || depth * x >= depth
    ensures depth * x >= 0 || depth * x <= 0 - depth
  {
  }

  /** The heart of the matter: tickets of one window never share a slot. */
  lemma WindowSlotsDistinct(depth: nat, j: nat, k: nat)
    requires depth > 0 && j < k < j + depth
    ensures SlotOf(depth, j) != SlotOf(depth, k)
  {
    var x := k / depth - j / depth;
    assert depth * x == depth * (k / depth) - depth * (j / depth);
    NoMultipleInside(depth, x);
  }

  lemma SlotIsReusedNextRound(depth: nat, k: nat)
    requires depth > 0
    ensures SlotOf(depth, k + depth) == SlotOf(depth, k)
  {
    var n := k + depth;
    var x := n / depth - k / depth - 1;
    assert depth * x == depth * (n / depth) - depth * (k / depth) - depth;
    NoMultipleInside(depth, x);
  }

  lemma ProducerSlotAgrees(depth: nat, k: nat)
    requires 0 < depth <= U32
    ensures ProducerSlot(depth, k) == SlotOf(depth, k)
  {
  }

  /** The 32-bit index of the producer finds every ticket's slot if and only if the ring has at
      most 2^32 slots: in a deeper one ticket 2^32 is put into slot 0. */
  lemma DepthLimit(depth: nat)
    requires depth > 0
    ensures (forall k: nat :: ProducerSlot(depth, k) == SlotOf(depth, k)) <==> depth <= U32
  {
    if depth <= U32 {
      forall k: nat ensures ProducerSlot(depth, k) == SlotOf(depth, k) {
        ProducerSlotAgrees(depth, k);
      }
    } else {
      assert ProducerSlot(depth, U32) == 0 && SlotOf(depth, U32) == U32;
    }
  }

  lemma SameSlots<V>(s: State<V>, s': State<V>)
    requires s.Depth() > 0 && s'.slots == s.slots
    ensures forall k: nat :: ReadyAt(s', k) == ReadyAt(s, k) && ValueAt(s', k) == ValueAt(s, k)
  {
  }

  /** Writing the slot of one ticket of the window leaves the slots of the others alone. */
  lemma WriteFrame<V>(s: State<V>, s': State<V>, k: nat, slot: Slot<V>)
    requires s.Depth() > 0 && s.head <= k < s.head + s.Depth()
    requires s'.slots == s.slots[SlotOf(s.Depth(), k) := slot]
    ensures ReadyAt(s', k) == slot.ready && ValueAt(s', k) == slot.value
    ensures forall j: nat :: s.head <= j < s.head + s.Depth() && j != k ==>
              ReadyAt(s', j) == ReadyAt(s, j) && ValueAt(s', j) == ValueAt(s, j)
  {
    forall j: nat | s.head <= j < s.head + s.Depth() && j != k
      ensures SlotOf(s.Depth(), j) != SlotOf(s.Depth(), k)
    {
      if j < k { WindowSlotsDistinct(s.Depth(), j, k); } else { WindowSlotsDistinct(s.Depth(), k, j); }
    }
  }

  // ---- every step keeps the invariant -----------------------------------------------

  predicate IsProducerLocal<V>(a: Action<V>) {
    a.Begin? || a.LoadHead? || a.Size? || a.Retry?
  }

  predicate IsConsumerLocal<V>(a: Action<V>) {
    a.PopHead? || a.PopTail? || a.Test? || a.Take?
  }

  lemma SameHolders<V>(s: State<V>, s': State<V>)
    requires forall t, k :: Holds(s', t, k) <==> Holds(s, t, k)
    ensures forall k :: Pending(s', k) <==> Pending(s, k)
  {
    forall k
      ensures Pending(s', k) <==> Pending(s, k)
    {
      if Pending(s, k) { var t :| Holds(s, t, k); assert Holds(s', t, k); }
      if Pending(s', k) { var t :| Holds(s', t, k); assert Holds(s, t, k); }
    }
  }

  /** The window does not depend on what a producer does with the ticket in its hand, nor
      on the consumer until it empties or passes a slot. */
  lemma WindowTransfers<V>(s: State<V>, s': State<V>, issued: seq<V>)
    requires s.Depth() > 0 && |issued| == s.tail && Window(s, issued)
    requires s'.slots == s.slots && s'.head == s.head && s'.tail == s.tail
    requires forall k :: Pending(s', k) <==> Pending(s, k)
    requires forall k: nat :: Emptied(s', k) <==> Emptied(s, k)
    ensures Window(s', issued)
  {
    SameSlots(s, s');
    forall k: nat | s.head <= k < s.tail
      ensures Pending(s', k) || Filled(s', issued, k) || Emptied(s', k)
    {
      assert Pending(s, k) || Filled(s, issued, k) || Emptied(s, k);
    }
    forall k: nat | s.head <= k < s.head + s.Depth() && (k >= s.tail || Pending(s', k) || Emptied(s', k))
      ensures !ReadyAt(s', k)
    {
    }
  }

  lemma ProducerLocalStep<V>(s: State<V>, a: Action<V>, s': State<V>, issued: seq<V>)
    requires Inv(s, issued) && Next(s, a) == Some(s') && IsProducerLocal(a)
    ensures Inv(s', issued)
  {
    ProducersLocally(s, a, s', issued);
    hide Next, Producers, Holds, Window;
    SameHolders(s, s');
    WindowTransfers(s, s', issued);
  }

  lemma ProducersLocally<V>(s: State<V>, a: Action<V>, s': State<V>, issued: seq<V>)
    requires Inv(s, issued) && Next(s, a) == Some(s') && IsProducerLocal(a)
    ensures s'.slots == s.slots && s'.head == s.head && s'.tail == s.tail && s'.consumer == s.consumer
    ensures forall t, k :: Holds(s', t, k) <==> Holds(s, t, k)
    ensures Producers(s', issued)
  {
    hide Window, Consumer;
    assert forall t :: t != a.tid ==> s'.PcOf(t) == s.PcOf(t);
    SameSlots(s, s');
  }

  lemma TakeTicketStep<V>(s: State<V>, a: Action<V>, s': State<V>, issued: seq<V>)
    requires Inv(s, issued) && Next(s, a) == Some(s') && a.TakeTicket?
    ensures Inv(s', issued + [s.PcOf(a.tid).value])
  {
    assert forall t :: t != a.tid ==> s'.PcOf(t) == s.PcOf(t);
    assert forall t, k :: Holds(s', t, k) <==> Holds(s, t, k) || (t == a.tid && k == s.tail);
    forall k
      ensures Pending(s', k) <==> Pending(s, k) || k == s.tail
    {
      if Pending(s, k) { var t :| Holds(s, t, k); assert Holds(s', t, k); }
      if Pending(s', k) { var t :| Holds(s', t, k); assert Holds(s, t, k) || k == s.tail; }
      if k == s.tail { assert Holds(s', a.tid, k); }
    }
    SameSlots(s, s');
    var issued' := issued + [s.PcOf(a.tid).value];
    forall k: nat | s.head <= k < s'.tail
      ensures Pending(s', k) || Filled(s', issued', k) || Emptied(s', k)
    {
      if k < s.tail { assert Pending(s, k) || Filled(s, issued, k) || Emptied(s, k); }
    }
    forall k: nat | s.head <= k < s.head + s.Depth() && (k >= s'.tail || Pending(s', k) || Emptied(s', k))
      ensures !ReadyAt(s', k)
    {
      assert k >= s.tail || Pending(s, k) || Emptied(s, k);
    }
    assert Window(s', issued') && Producers(s', issued');
  }

  lemma FillingStep<V>(s: State<V>, a: Action<V>, s': State<V>, issued: seq<V>)
    requires Inv(s, issued) && Next(s, a) == Some(s') && (a.ClearSlot? || a.StoreValue?)
    ensures Inv(s', issued)
  {
    var pc := s.PcOf(a.tid);
    assert Holds(s, a.tid, pc.ticket);
    ProducerSlotAgrees(s.Depth(), pc.ticket);
    WriteFrame(s, s', pc.ticket, s'.slots[SlotOf(s.Depth(), pc.ticket)]);
    assert forall t :: t != a.tid ==> s'.PcOf(t) == s.PcOf(t);
    assert forall t, k :: Holds(s', t, k) <==> Holds(s, t, k);
    SameHolders(s, s');
    forall t | s'.PcOf(t).Flagging?
      ensures ValueAt(s', s'.PcOf(t).ticket) == s'.PcOf(t).value
    {
      assert Holds(s, t, s'.PcOf(t).ticket);
    }
    forall k: nat | s.head <= k < s.tail
      ensures Pending(s', k) || Filled(s', issued, k) || Emptied(s', k)
    {
      assert Pending(s, pc.ticket);
    }
  }

  lemma SetReadyStep<V>(s: State<V>, a: Action<V>, s': State<V>, issued: seq<V>)
    requires Inv(s, issued) && Next(s, a) == Some(s') && a.SetReady?
    ensures Inv(s', issued)
  {
    var pc := s.PcOf(a.tid);
    assert Holds(s, a.tid, pc.ticket);
    ProducerSlotAgrees(s.Depth(), pc.ticket);
    WriteFrame(s, s', pc.ticket, s'.slots[SlotOf(s.Depth(), pc.ticket)]);
    assert forall t :: t != a.tid ==> s'.PcOf(t) == s.PcOf(t);
    assert forall t, k :: Holds(s', t, k) <==> Holds(s, t, k) && t != a.tid;
    forall k
      ensures Pending(s', k) <==> Pending(s, k) && k != pc.ticket
    {
      if Pending(s, k) && k != pc.ticket { var t :| Holds(s, t, k); assert Holds(s', t, k); }
      if Pending(s', k) { var t :| Holds(s', t, k); assert Holds(s, t, k); }
    }
    assert Pending(s, pc.ticket);
    forall t | s'.PcOf(t).Flagging?
      ensures ValueAt(s', s'.PcOf(t).ticket) == s'.PcOf(t).value
    {
      assert Holds(s, t, s'.PcOf(t).ticket);
    }
    assert Filled(s', issued, pc.ticket);
  }

  lemma ConsumerLocalStep<V>(s: State<V>, a: Action<V>, s': State<V>, issued: seq<V>)
    requires Inv(s, issued) && Next(s, a) == Some(s') && IsConsumerLocal(a)
    ensures Inv(s', issued)
  {
    assert forall t :: s'.PcOf(t) == s.PcOf(t);
    SameSlots(s, s');
    assert forall t, k :: Holds(s', t, k) <==> Holds(s, t, k);
    SameHolders(s, s');
    WindowTransfers(s, s', issued);
    assert Producers(s', issued);
  }

  lemma UnflagStep<V>(s: State<V>, a: Action<V>, s': State<V>, issued: seq<V>)
    requires Inv(s, issued) && Next(s, a) == Some(s') && a.Unflag?
    ensures Inv(s', issued)
  {
    assert forall t :: s'.PcOf(t) == s.PcOf(t);
    assert forall t, k :: Holds(s', t, k) <==> Holds(s, t, k);
    SameHolders(s, s');
    WriteFrame(s, s', s.head, s'.slots[SlotOf(s.Depth(), s.head)]);
    assert !Pending(s, s.head);
    forall t | s'.PcOf(t).Flagging?
      ensures ValueAt(s', s'.PcOf(t).ticket) == s'.PcOf(t).value
    {
      assert Holds(s, t, s'.PcOf(t).ticket);
    }
    assert Producers(s', issued);
    forall k: nat | s.head <= k < s.tail
      ensures Pending(s', k) || Filled(s', issued, k) || Emptied(s', k)
    {
      assert Pending(s, k) || Filled(s, issued, k);
    }
    forall k: nat | s.head <= k < s.head + s.Depth() && (k >= s.tail || Pending(s', k) || Emptied(s', k))
      ensures !ReadyAt(s', k)
    {
    }
  }

  lemma AdvanceStep<V>(s: State<V>, a: Action<V>, s': State<V>, issued: seq<V>)
    requires Inv(s, issued) && Next(s, a) == Some(s') && a.Advance?
    ensures Inv(s', issued)
  {
    assert forall t :: s'.PcOf(t) == s.PcOf(t);
    assert forall t, k :: Holds(s', t, k) <==> Holds(s, t, k);
    SameHolders(s, s');
    SameSlots(s, s');
    SlotIsReusedNextRound(s.Depth(), s.head);
    assert Emptied(s, s.head) && !ReadyAt(s, s.head);
    forall t, k | Holds(s', t, k)
      ensures s'.head <= k
    {
      assert Holds(s, t, k) && Pending(s, k);
    }
    assert Producers(s', issued);
    forall k: nat | s'.head <= k < s.tail
      ensures Pending(s', k) || Filled(s', issued, k) || Emptied(s', k)
    {
      assert Pending(s, k) || Filled(s, issued, k);
    }
    forall k: nat | s'.head <= k < s'.head + s.Depth() && (k >= s.tail || Pending(s', k) || Emptied(s', k))
      ensures !ReadyAt(s', k)
    {
      if k < s.head + s.Depth() {
        assert k >= s.tail || Pending(s, k);
      }
    }
  }

  // ---- runs ------------------------------------------------------------------------

  datatype Op<V> = Issue(value: V) | Deliver(value: V) | Silent

  /** A value gets its place in the order at the fetch_add on tail_, and pop returns it at
      the fetch_add on head_. */
  function Effect<V>(s: State<V>, a: Action<V>): Op<V> {
    if a.TakeTicket? && s.PcOf(a.tid).SawHead? then Issue(s.PcOf(a.tid).value)
    else if a.Advance? && s.consumer.Advancing? then Deliver(s.consumer.value)
    else Silent
  }

  function Issued<V>(ops: seq<Op<V>>): seq<V> {
    if ops == [] then []
    else Issued(ops[..|ops| - 1]) + if ops[|ops| - 1].Issue? then [ops[|ops| - 1].value] else []
  }

  function Delivered<V>(ops: seq<Op<V>>): seq<V> {
    if ops == [] then []
    else Delivered(ops[..|ops| - 1]) + if ops[|ops| - 1].Deliver? then [ops[|ops| - 1].value] else []
  }

  lemma InvStep<V>(s: State<V>, a: Action<V>, s': State<V>, issued: seq<V>)
    requires Inv(s, issued) && Next(s, a) == Some(s')
    ensures Inv(s', issued + if Effect(s, a).Issue? then [Effect(s, a).value] else [])
    ensures s'.head == s.head + One(Effect(s, a).Deliver?)
    ensures Effect(s, a).Deliver? ==> s.head < |issued| && Effect(s, a).value == issued[s.head]
  {
    assert issued + [] == issued;
    match a
    case Begin(_, _) | LoadHead(_) | Size(_) | Retry(_) => ProducerLocalStep(s, a, s', issued);
    case TakeTicket(_) => TakeTicketStep(s, a, s', issued);
    case ClearSlot(_) | StoreValue(_) => FillingStep(s, a, s', issued);
    case SetReady(_) => SetReadyStep(s, a, s', issued);
    case PopHead | PopTail | Test | Take => ConsumerLocalStep(s, a, s', issued);
    case Unflag => UnflagStep(s, a, s', issued);
    case Advance => AdvanceStep(s, a, s', issued);
  }

  ghost predicate Run<V>(ss: seq<State<V>>, acts: seq<Action<V>>) {
    && |ss| == |acts| + 1
    && Init(ss[0])
    && forall i | 0 <= i < |acts| :: 0 < ss[i].Depth() <= U32 && Next(ss[i], acts[i]) == Some(ss[i + 1])
  }

  ghost function Ops<V>(ss: seq<State<V>>, acts: seq<Action<V>>, i: nat): seq<Op<V>>
    requires Run(ss, acts) && i <= |acts|
  {
    if i == 0 then [] else Ops(ss, acts, i - 1) + [Effect(ss[i - 1], acts[i - 1])]
  }

  lemma InitInv<V>(s: State<V>)
    requires Init(s)
    ensures Inv(s, [])
  {
  }

  lemma HistoryGrows<V>(ops: seq<Op<V>>, op: Op<V>)
    ensures Issued(ops + [op]) == Issued(ops) + if op.Issue? then [op.value] else []
    ensures Delivered(ops + [op]) == Delivered(ops) + if op.Deliver? then [op.value] else []
  {
    assert (ops + [op])[..|ops|] == ops;
  }

  lemma OneMoreStep<V>(ops: seq<Op<V>>, s: State<V>, a: Action<V>, s': State<V>)
    requires Inv(s, Issued(ops)) && Delivered(ops) == Issued(ops)[..s.head] && Next(s, a) == Some(s')
    ensures Inv(s', Issued(ops + [Effect(s, a)]))
    ensures Delivered(ops + [Effect(s, a)]) == Issued(ops + [Effect(s, a)])[..s'.head]
  {
    HistoryGrows(ops, Effect(s, a));
    InvStep(s, a, s', Issued(ops));
  }

  /** In every interleaving the values popped so far are the values pushed, in the order of
      their tickets, each once: the first head_ of them. */
  lemma {:induction false} PopsInTicketOrder<V>(ss: seq<State<V>>, acts: seq<Action<V>>, i: nat)
    requires Run(ss, acts) && i < |ss|
    ensures Inv(ss[i], Issued(Ops(ss, acts, i)))
    ensures Delivered(Ops(ss, acts, i)) == Issued(Ops(ss, acts, i))[..ss[i].head]
  {
    hide Inv, Next;
    if i == 0 {
      InitInv(ss[0]);
    } else {
      PopsInTicketOrder(ss, acts, i - 1);
      assert Next(ss[i - 1], acts[i - 1]) == Some(ss[i]);
      OneMoreStep(Ops(ss, acts, i - 1), ss[i - 1], acts[i - 1], ss[i]);
    }
  }

  // ---- consequences ----------------------------------------------------------------

  /** No producer ever writes a slot that still holds a value nobody has consumed: when one
      writes, the ready bit of its slot is clear, every outstanding filled ticket lives in
      another slot, and the ticket that used the slot last has been popped. */
  lemma NoOverwrite<V>(ss: seq<State<V>>, acts: seq<Action<V>>, i: nat, t: Tid)
    requires Run(ss, acts) && i < |ss| && HasSpace(ss[i].PcOf(t))
    ensures ss[i].Depth() > 0 && !ReadyAt(ss[i], ss[i].PcOf(t).ticket)
    ensures ss[i].PcOf(t).ticket < ss[i].head + ss[i].Depth()
    ensures forall k: nat :: ss[i].head <= k < |Issued(Ops(ss, acts, i))| && Filled(ss[i], Issued(Ops(ss, acts, i)), k)
              ==> SlotOf(ss[i].Depth(), k) != SlotOf(ss[i].Depth(), ss[i].PcOf(t).ticket)
  {
    PopsInTicketOrder(ss, acts, i);
    assert Holds(ss[i], t, ss[i].PcOf(t).ticket);
    assert Pending(ss[i], ss[i].PcOf(t).ticket);
  }

  /** The unsigned subtractions `tail - head` never wrap: no producer has seen a head beyond
      its own ticket. */
  lemma SizesNeverWrap<V>(ss: seq<State<V>>, acts: seq<Action<V>>, i: nat, t: Tid)
    requires Run(ss, acts) && i < |ss|
    ensures ss[i].PcOf(t).Sizing? ==> ss[i].PcOf(t).head <= ss[i].PcOf(t).ticket
    ensures ss[i].PcOf(t).Spinning? ==> ss[i].head <= ss[i].PcOf(t).ticket
  {
    PopsInTicketOrder(ss, acts, i);
    if ss[i].PcOf(t).Sizing? || ss[i].PcOf(t).Spinning? {
      assert Holds(ss[i], t, ss[i].PcOf(t).ticket);
    }
  }

  /** The ring is never stuck: while tickets are outstanding and the consumer is at rest,
      either the oldest one is ready to pop or its producer is not waiting for space. */
  lemma OldestTicketMoves<V>(ss: seq<State<V>>, acts: seq<Action<V>>, i: nat)
    requires Run(ss, acts) && i < |ss|
    requires ss[i].consumer.Resting? && ss[i].head < ss[i].tail
    ensures 0 < ss[i].Depth() <= U32
    ensures ReadyAt(ss[i], ss[i].head)
            || exists t :: Holds(ss[i], t, ss[i].head)
                 && (ss[i].PcOf(t).Spinning? ==> Next(ss[i], Retry(t)) == Some(ss[i].At(t, Clearing(ss[i].PcOf(t).value, ss[i].head))))
  {
    PopsInTicketOrder(ss, acts, i);
    if !ReadyAt(ss[i], ss[i].head) {
      assert Pending(ss[i], ss[i].head);
      var t :| Holds(ss[i], t, ss[i].head);
      assert ss[i].PcOf(t).Spinning? ==> Next(ss[i], Retry(t)) == Some(ss[i].At(t, Clearing(ss[i].PcOf(t).value, ss[i].head)));
    }
  }
}
