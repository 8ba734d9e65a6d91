/** ring_queue with kErrorOnNoSpace, used by one thread at a time: a bounded deque. */
module FixedRing {
  import opened Wrappers
  import MpscRing

  function SlotOf(depth: nat, ticket: nat): nat
    requires depth > 0
  {
    MpscRing.SlotOf(depth, ticket)
  }

  /** The slots of the tickets in [head, tail) are marked. */
  predicate Ready<T>(slots: seq<Option<T>>, head: nat, tail: nat) {
    && head <= tail <= head + |slots|
    && forall k :: head <= k < tail ==> slots[SlotOf(|slots|, k)].Some?
  }

  /** What the queue holds, oldest first. */
  function Window<T>(slots: seq<Option<T>>, head: nat, tail: nat): (w: seq<T>)
    requires Ready(slots, head, tail)
    ensures |w| == tail - head
    ensures forall i :: 0 <= i < |w| ==> w[i] == slots[SlotOf(|slots|, head + i)].value
  {
    seq(tail - head, i requires 0 <= i < tail - head => slots[SlotOf(|slots|, head + i)].value)
  }

  /** Writing a slot outside the window leaves the window alone. */
  lemma OtherSlotsKeep<T>(slots: seq<Option<T>>, head: nat, tail: nat, ticket: nat, s: Option<T>)
    requires Ready(slots, head, tail) && |slots| > 0
    requires tail <= ticket < head + |slots| || (ticket < head && tail <= ticket + |slots|)
    ensures var slots' := slots[SlotOf(|slots|, ticket) := s];
            Ready(slots', head, tail) && Window(slots', head, tail) == Window(slots, head, tail)
  {
    forall k | head <= k < tail
      ensures SlotOf(|slots|, k) != SlotOf(|slots|, ticket)
    {
      if k < ticket {
        MpscRing.WindowSlotsDistinct(|slots|, k, ticket);
      } else {
        MpscRing.WindowSlotsDistinct(|slots|, ticket, k);
      }
    }
  }

  lemma PushWindow<T>(slots: seq<Option<T>>, head: nat, tail: nat, v: T)
    requires Ready(slots, head, tail) && tail < head + |slots|
    ensures var slots' := slots[SlotOf(|slots|, tail) := Some(v)];
            Ready(slots', head, tail + 1) && Window(slots', head, tail + 1) == Window(slots, head, tail) + [v]
  {
    OtherSlotsKeep(slots, head, tail, tail, Some(v));
  }

  lemma PopWindow<T>(slots: seq<Option<T>>, head: nat, tail: nat)
    requires Ready(slots, head, tail) && head < tail
    ensures var slots' := slots[SlotOf(|slots|, head) := None];
            Ready(slots', head + 1, tail) && Window(slots', head + 1, tail) == Window(slots, head, tail)[1..]
  {
    OtherSlotsKeep(slots, head + 1, tail, head, None);
  }

  lemma PopBackWindow<T>(slots: seq<Option<T>>, head: nat, tail: nat)
    requires Ready(slots, head, tail) && head < tail
    ensures var slots' := slots[SlotOf(|slots|, tail - 1) := None];
            && Ready(slots', head, tail - 1)
            && Window(slots', head, tail - 1) == Window(slots, head, tail)[..tail - 1 - head]
  {
    OtherSlotsKeep(slots, head, tail - 1, tail - 1, None);
  }

  class Ring<T> {
    /** A slot is marked when it is Some. */
    var slots: array<Option<T>>
    var head: nat
    var tail: nat

    ghost predicate Valid()
      reads this, slots
    {
      Ready(slots[..], head, tail)
    }

    ghost function Contents(): seq<T>
      requires Valid()
      reads this, slots
    {
      Window(slots[..], head, tail)
    }

    constructor (depth: nat)
      ensures Valid() && Contents() == [] && slots.Length == depth && fresh(slots)
    {
      slots := new Option<T>[depth](_ => None);
      head, tail := 0, 0;
    }

    /** None is the null token: the queue was full, and is left as it was. */
    method Emplace(v: T) returns (token: Option<nat>)
      requires Valid()
      modifies this`tail, slots
      ensures Valid()
      ensures token == if |old(Contents())| < slots.Length then Some(old(tail)) else None
      ensures Contents() == old(Contents()) + if token.Some? then [v] else []
    {
      var ticket := tail;
      tail := tail + 1;
      var size := ticket - head + 1;
      if size > slots.Length {
        tail := tail - 1;
        return None;
      }
      PushWindow(slots[..], head, ticket, v);
      slots[SlotOf(slots.Length, ticket)] := Some(v);
      return Some(ticket);
    }

    method Pop() returns (v: Option<T>)
      requires Valid()
      modifies this`head, slots
      ensures Valid()
      ensures v.None? <==> old(Contents()) == []
      ensures old(Contents()) == if v.Some? then [v.value] + Contents() else Contents()
    {
      if head >= tail {
        return None;
      }
      var slot := SlotOf(slots.Length, head);
      v := slots[slot];
      if v.Some? {
        PopWindow(slots[..], head, tail);
        slots[slot] := None;
        head := head + 1;
      }
    }

    method PopBack() returns (v: Option<T>)
      requires Valid()
      modifies this`tail, slots
      ensures Valid()
      ensures v.None? <==> old(Contents()) == []
      ensures old(Contents()) == if v.Some? then Contents() + [v.value] else Contents()
    {
      if head >= tail {
        return None;
      }
      var slot := SlotOf(slots.Length, tail - 1);
      v := slots[slot];
      if v.Some? {
        PopBackWindow(slots[..], head, tail);
        slots[slot] := None;
        tail := tail - 1;
      }
    }

    /** Everything is popped into a new queue, in order; what does not fit there is lost. */
    method Resize(depth: nat)
      requires Valid()
      modifies this, slots
      ensures Valid() && slots.Length == depth && fresh(slots)
      ensures Contents() == AtMost(old(Contents()), depth)
    {
      hide Ready, Window, AtMost;
      var queue := new Ring<T>(depth);
      ghost var all := Contents();
      ghost var moved: nat := 0;
      var v := Pop();
      while v.Some?
        invariant Valid() && queue.Valid() && fresh(queue) && fresh(queue.slots) && queue.slots.Length == depth
        invariant slots == old(slots) && queue.slots != slots && queue != this
        invariant moved <= |all| && all[moved..] == if v.Some? then [v.value] + Contents() else []
        invariant v.None? ==> Contents() == []
        invariant queue.Contents() == AtMost(all[..moved], depth)
        decreases |Contents()|, v.Some?
      {
        assert all[..moved + 1] == all[..moved] + [v.value] && all[moved + 1..] == all[moved..][1..];
        AtMostPush(all[..moved], v.value, depth);
        var _ := queue.Emplace(v.value);
        v := Pop();
        moved := moved + 1;
      }
      assert all[..moved] == all;
      head, tail, slots := queue.head, queue.tail, queue.slots;
    }
  }

  lemma AtMostPush<T>(s: seq<T>, v: T, n: nat)
    ensures |AtMost(s, n)| <= n
    ensures AtMost(s + [v], n) == AtMost(s, n) + if |AtMost(s, n)| < n then [v] else []
  {
  }

  function AtMost<T>(s: seq<T>, n: nat): (r: seq<T>)
    ensures s == [] ==> r == []
  {
    if |s| <= n then s else s[..n]
  }
}
