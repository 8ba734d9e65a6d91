/** Thread identifiers of the thread-local allocator: freed ones are handed out again, last
    freed first. A spin lock makes each operation one step. */
module TidPool {
  import opened KeySets

  datatype State = State(free: seq<nat>, heap: nat, live: set<nat>)

  datatype Call = CreateTid | FreeTid(tid: nat)

  const START := State([], 0, {})

  function Create(s: State): (r: (State, nat)) {
    if |s.free| > 0 then
      var tid := s.free[|s.free| - 1];
      (State(s.free[..|s.free| - 1], s.heap, s.live + {tid}), tid)
    else
      (State(s.free, s.heap + 1, s.live + {s.heap}), s.heap)
  }

  function Free(s: State, tid: nat): State {
    State(s.free + [tid], s.heap, s.live - {tid})
  }

  /** Callers free only identifiers they hold. */
  predicate MayCall(s: State, c: Call) {
    c.FreeTid? ==> c.tid in s.live
  }

  function Obey(s: State, c: Call): State {
    match c
    case CreateTid => Create(s).0
    case FreeTid(tid) => Free(s, tid)
  }

  predicate IsRun(states: seq<State>, calls: seq<Call>) {
    && |states| == |calls| + 1 && states[0] == START
    && forall i :: 0 <= i < |calls| ==> MayCall(states[i], calls[i]) && states[i + 1] == Obey(states[i], calls[i])
  }

  ghost predicate Inv(s: State) {
    Partition(s.live, s.free, s.heap)
  }

  lemma CreateKeeps(s: State)
    requires Inv(s)
    ensures Inv(Create(s).0)
    ensures Create(s).1 !in s.live && Create(s).1 < Create(s).0.heap
    ensures Create(s).0.heap == if |s.live| == s.heap then s.heap + 1 else s.heap
  {
    if s.free != [] {
      TakeLast(s);
    }
  }

  /** The identifier freed last is handed out next, and then the one freed before it. */
  lemma LastFreedComesBack(s: State, tid: nat, other: nat)
    requires Inv(s) && tid in s.live && other in s.live && other != tid
    ensures Create(Free(s, tid)) == (s, tid)
    ensures Create(Create(Free(Free(s, other), tid)).0) == (s, other)
  {
    assert (s.free + [tid])[..|s.free|] == s.free && (s.free + [other])[..|s.free|] == s.free;
    assert (s.free + [other] + [tid])[..|s.free| + 1] == s.free + [other];
    assert s.live - {tid} + {tid} == s.live && s.live - {other} + {other} == s.live;
    assert s.live - {other} - {tid} + {tid} == s.live - {other};
  }

  lemma TakeLast(s: State)
    requires Inv(s) && s.free != []
    ensures var tid := s.free[|s.free| - 1];
            tid !in s.live && tid < s.heap && Partition(s.live + {tid}, s.free[..|s.free| - 1], s.heap)
  {
    var last := |s.free| - 1;
    assert s.free[last] in s.free;
    forall k
      ensures k in s.free <==> k == s.free[last] || k in s.free[..last]
    {
      assert s.free == s.free[..last] + [s.free[last]];
    }
  }

  lemma FreeKeeps(s: State, tid: nat)
    requires Inv(s) && tid in s.live
    ensures Inv(Free(s, tid))
  {
    GiveBackKey(s.live, s.free, s.heap, tid);
  }

  /** In every run live and free identifiers partition [0, heap): so the live ones, each
      handed to one thread, are pairwise distinct. */
  lemma {:induction false} RunsKeepPartition(states: seq<State>, calls: seq<Call>, n: nat)
    requires IsRun(states, calls) && n < |states|
    ensures Inv(states[n])
  {
    if n > 0 {
      RunsKeepPartition(states, calls, n - 1);
      match calls[n - 1]
      case CreateTid => CreateKeeps(states[n - 1]);
      case FreeTid(tid) => FreeKeeps(states[n - 1], tid);
    }
  }

  /** The heap is the peak: never exceeded, and reached at some moment. */
  lemma {:induction false} HeapIsPeak(states: seq<State>, calls: seq<Call>, n: nat) returns (peak: nat)
    requires IsRun(states, calls) && n < |states|
    ensures forall i :: 0 <= i <= n ==> |states[i].live| <= states[n].heap
    ensures peak <= n && |states[peak].live| == states[n].heap
  {
    if n == 0 {
      peak := 0;
    } else {
      peak := HeapIsPeak(states, calls, n - 1);
      RunsKeepPartition(states, calls, n - 1);
      RunsKeepPartition(states, calls, n);
      if calls[n - 1].CreateTid? {
        CreateKeeps(states[n - 1]);
        if states[n].heap > states[n - 1].heap { peak := n; }
      }
    }
  }

  /** So looking up a thread's slot stays in bounds as long as no more threads than slots were
      ever live at once. */
  lemma SlotsSuffice(states: seq<State>, calls: seq<Call>, n: nat, maxThreads: nat, tid: nat)
    requires IsRun(states, calls) && n < |states| && tid in states[n].live
    requires forall i :: 0 <= i <= n ==> |states[i].live| <= maxThreads
    ensures tid < maxThreads
  {
    var peak := HeapIsPeak(states, calls, n);
    RunsKeepPartition(states, calls, n);
  }

  class ThreadLocalAllocatorHeader {
    var freeTids: seq<nat>
    var tidHeap: nat
    ghost var live: set<nat>

    ghost function View(): State
      reads this
    {
      State(freeTids, tidHeap, live)
    }

    constructor ()
      ensures View() == START
    {
      freeTids, tidHeap, live := [], 0, {};
    }

    method CreateTid() returns (tid: nat)
      requires Inv(View())
      modifies this
      ensures Inv(View()) && View() == Create(old(View())).0 && tid == Create(old(View())).1
    {
      CreateKeeps(View());
      if |freeTids| > 0 {
        tid := freeTids[|freeTids| - 1];
        freeTids := freeTids[..|freeTids| - 1];
      } else {
        tid := tidHeap;
        tidHeap := tidHeap + 1;
      }
      live := live + {tid};
    }

    method FreeTid(tid: nat)
      requires Inv(View()) && tid in live
      modifies this
      ensures Inv(View()) && View() == Free(old(View()), tid)
    {
      FreeKeeps(View(), tid);
      freeTids := freeTids + [tid];
      live := live - {tid};
    }
  }
}
