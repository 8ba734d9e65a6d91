/** Calls of the lock-free stack: what one enqueue and one dequeue do, alone and among others. */
module MpscStackCalls {
  import opened Wrappers
  import opened Threads
  import opened MpscStack

  // ---- a call alone -----------------------------------------------------------------

  function Exec(s: State, p: seq<Action>): Option<State>
    decreases |p|
  {
    if p == [] then Some(s)
    else match Next(s, p[0])
      case None => None
      case Some(s') => Exec(s', p[1..])
  }

  function Shown(op: Op): seq<Op> {
    if op.Silent? then [] else [op]
  }

  /** The pushes and pops along these actions. */
  function Visible(s: State, p: seq<Action>): seq<Op>
    decreases |p|
  {
    if p == [] then []
    else match Next(s, p[0])
      case None => []
      case Some(s') => Shown(Effect(s, p[0])) + Visible(s', p[1..])
  }

  ghost predicate Does(s: State, p: seq<Action>, ops: seq<Op>, s': State) {
    Exec(s, p) == Some(s') && Visible(s, p) == ops
  }

  lemma DoesNothing(s: State)
    ensures Does(s, [], [], s)
  {
  }

  lemma First(s: State, a: Action, s1: State, p: seq<Action>, ops: seq<Op>, s': State)
    requires Next(s, a) == Some(s1) && Does(s1, p, ops, s')
    ensures Does(s, [a] + p, Shown(Effect(s, a)) + ops, s')
    ensures Effect(s, a).Silent? ==> Does(s, [a] + p, ops, s')
    ensures !Effect(s, a).Silent? && ops == [] ==> Does(s, [a] + p, [Effect(s, a)], s')
  {
    hide Next, Effect;
    assert ([a] + p)[1..] == p;
    assert [] + ops == ops && [Effect(s, a)] + [] == [Effect(s, a)];
  }

  /** The size check lets a dequeue pass exactly when a completed enqueue has not been taken:
      when more nodes are linked than producers have yet to count. */
  lemma SizeCheckExactly(ss: seq<State>, acts: seq<Action>, i: nat) returns (chain: seq<Node>)
    requires Run(ss, acts) && i < |ss| && ss[i].consumer.Resting?
    ensures Chain(ss[i], chain)
    ensures Next(ss[i], ReadCount).Some?
    ensures var s' := Next(ss[i], ReadCount).value;
            && (s'.consumer.Resting? <==> |chain| == |Having(ss[i].pcs, IsCounting)|)
            && (!s'.consumer.Resting? <==> ss[i].count > 0)
  {
    chain := CountIsExact(ss, acts, i);
  }

  const DEQUEUE := [ReadCount, LoadTop, LoadNext, CasPop(true), Uncount]

  lemma DequeueSteps(s: State, top: Node) returns (s': State)
    requires s.consumer.Resting? && s.count > 0 && s.tail == Some(top)
    ensures Does(s, DEQUEUE, [Pop(top)], s')
    ensures s' == s.(tail := s.NextOf(top), clients := s.clients + {top}, count := s.count - 1)
  {
    var s1 := s.(consumer := Looping);
    var s2 := s.(consumer := SawTop(top));
    var s3 := s.(consumer := SawNext(top, s.NextOf(top)));
    var s4 := s.(consumer := Uncounting(top), tail := s.NextOf(top));
    s' := s4.(consumer := Resting, clients := s.clients + {top}, count := s.count - 1);
    hide Does;
    DoesNothing(s');
    First(s4, Uncount, s', [], [], s');
    First(s3, CasPop(true), s4, [Uncount], [], s');
    hide Next, Effect;
    DequeueStarts(s, top);
    First(s2, LoadNext, s3, [CasPop(true), Uncount], [Pop(top)], s');
    First(s1, LoadTop, s2, [LoadNext, CasPop(true), Uncount], [Pop(top)], s');
    First(s, ReadCount, s1, [LoadTop, LoadNext, CasPop(true), Uncount], [Pop(top)], s');
  }

  /** The loads of a dequeue. */
  lemma DequeueStarts(s: State, top: Node)
    requires s.consumer.Resting? && s.count > 0 && s.tail == Some(top)
    ensures Next(s, ReadCount) == Some(s.(consumer := Looping)) && Effect(s, ReadCount).Silent?
    ensures Next(s.(consumer := Looping), LoadTop) == Some(s.(consumer := SawTop(top)))
    ensures Next(s.(consumer := SawTop(top)), LoadNext) == Some(s.(consumer := SawNext(top, s.NextOf(top))))
    ensures forall s1 :: Effect(s1, LoadTop).Silent? && Effect(s1, LoadNext).Silent?
  {
  }

  /** Whenever count_ is positive, a dequeue that is not disturbed pops the top of the chain,
      hands it to the clients and is done; nothing else changes. */
  lemma DequeueAlone(ss: seq<State>, acts: seq<Action>, i: nat) returns (chain: seq<Node>, s': State)
    requires Run(ss, acts) && i < |ss| && ss[i].consumer.Resting? && ss[i].count > 0
    ensures Chain(ss[i], chain) && chain != []
    ensures Does(ss[i], DEQUEUE, [Pop(chain[0])], s')
    ensures s'.consumer.Resting? && Chain(s', chain[1..])
    ensures s'.count == ss[i].count - 1 && s'.clients == ss[i].clients + {chain[0]} && s'.pcs == ss[i].pcs
  {
    chain := RefinesStack(ss, acts, i);
    s' := DequeueSteps(ss[i], chain[0]);
    ChainPop(ss[i], s', chain);
  }

  function Enqueue(t: Tid, n: Node): seq<Action> {
    [Begin(t, n), LoadTail(t), StoreNext(t), CasPush(t, true), Count(t)]
  }

  lemma EnqueueSteps(s: State, t: Tid, n: Node) returns (s': State)
    requires s.PcOf(t).Idle? && n in s.clients
    ensures Does(s, Enqueue(t, n), [Push(n)], s')
    ensures s' == s.(tail := Some(n), next := s.next[n := s.tail], clients := s.clients - {n}, count := s.count + 1,
                     pcs := s.pcs[t := MpscStack.Idle])
  {
    var s1 := s.(pcs := s.pcs[t := Entering(n)], clients := s.clients - {n});
    var s2 := s1.(pcs := s.pcs[t := Loaded(n, s.tail)]);
    var s3 := s2.(pcs := s.pcs[t := Linked(n, s.tail)], next := s.next[n := s.tail]);
    var s4 := s3.(pcs := s.pcs[t := Counting], tail := Some(n));
    s' := s4.(pcs := s.pcs[t := MpscStack.Idle], count := s.count + 1);
    EnqueueStarts(s, t, n, s1, s2, s3);
    EnqueueEnds(s, t, n, s3, s4, s');
    hide Does, Next, Effect;
    DoesNothing(s');
    First(s4, Count(t), s', [], [], s');
    assert [Count(t)] + [] == [Count(t)];
    First(s3, CasPush(t, true), s4, [Count(t)], [], s');
    First(s2, StoreNext(t), s3, [CasPush(t, true), Count(t)], [Push(n)], s');
    First(s1, LoadTail(t), s2, [StoreNext(t), CasPush(t, true), Count(t)], [Push(n)], s');
    First(s, Begin(t, n), s1, [LoadTail(t), StoreNext(t), CasPush(t, true), Count(t)], [Push(n)], s');
  }

  lemma SamePcs(pcs: map<Tid, Pc>, t: Tid, x: Pc, y: Pc)
    ensures pcs[t := x][t := y] == pcs[t := y]
  {
  }

  lemma EnqueueStarts(s: State, t: Tid, n: Node, s1: State, s2: State, s3: State)
    requires s.PcOf(t).Idle? && n in s.clients
    requires s1 == s.(pcs := s.pcs[t := Entering(n)], clients := s.clients - {n})
    requires s2 == s1.(pcs := s.pcs[t := Loaded(n, s.tail)])
    requires s3 == s2.(pcs := s.pcs[t := Linked(n, s.tail)], next := s.next[n := s.tail])
    ensures Next(s, Begin(t, n)) == Some(s1) && Effect(s, Begin(t, n)).Silent?
    ensures Next(s1, LoadTail(t)) == Some(s2) && Effect(s1, LoadTail(t)).Silent?
    ensures Next(s2, StoreNext(t)) == Some(s3) && Effect(s2, StoreNext(t)).Silent?
  {
    SamePcs(s.pcs, t, Entering(n), Loaded(n, s.tail));
    SamePcs(s.pcs, t, Loaded(n, s.tail), Linked(n, s.tail));
  }

  lemma EnqueueEnds(s: State, t: Tid, n: Node, s3: State, s4: State, s': State)
    requires s3.pcs == s.pcs[t := Linked(n, s.tail)] && s3.tail == s.tail
    requires s4 == s3.(pcs := s.pcs[t := Counting], tail := Some(n))
    requires s' == s4.(pcs := s.pcs[t := MpscStack.Idle], count := s3.count + 1)
    ensures Next(s3, CasPush(t, true)) == Some(s4) && Effect(s3, CasPush(t, true)) == Push(n)
    ensures Next(s4, Count(t)) == Some(s') && Effect(s4, Count(t)).Silent?
  {
    SamePcs(s.pcs, t, Linked(n, s.tail), Counting);
    SamePcs(s.pcs, t, Counting, MpscStack.Idle);
  }

  /** An enqueue that is not disturbed pushes the very node it was called with. */
  lemma EnqueueAlone(ss: seq<State>, acts: seq<Action>, i: nat, t: Tid, n: Node)
    returns (chain: seq<Node>, s': State)
    requires Run(ss, acts) && i < |ss| && ss[i].PcOf(t).Idle? && n in ss[i].clients
    ensures Chain(ss[i], chain)
    ensures Does(ss[i], Enqueue(t, n), [Push(n)], s')
    ensures s'.PcOf(t).Idle? && Chain(s', [n] + chain)
    ensures s'.count == ss[i].count + 1 && s'.clients == ss[i].clients - {n} && s'.consumer == ss[i].consumer
    ensures forall u :: u != t ==> s'.PcOf(u) == ss[i].PcOf(u)
  {
    chain := RefinesStack(ss, acts, i);
    s' := EnqueueSteps(ss[i], t, n);
    var linked := s'.(tail := ss[i].tail);
    RelinkedChain(ss[i], linked, chain, n);
    ChainPush(linked, s', chain, n);
  }

  lemma RelinkedChain(s: State, s': State, chain: seq<Node>, n: Node)
    requires Chain(s, chain) && n !in chain
    requires s'.tail == s.tail && s'.next == s.next[n := s.tail]
    ensures Chain(s', chain) && s'.NextOf(n) == s.tail
  {
    forall i | 0 <= i < |chain| ensures s'.NextOf(chain[i]) == LinkAt(chain, i + 1) {
      assert chain[i] in chain;
    }
  }

  // ---- a call left alone halfway ---------------------------------------------------------

  /** The next step of a producer, its exchange succeeding if it can. */
  function OwnPush(pc: Pc, t: Tid): Action {
    if pc.Entering? then LoadTail(t)
    else if pc.Loaded? then StoreNext(t)
    else if pc.Linked? then CasPush(t, true)
    else Count(t)
  }

  /** Steps left, at most; an outdated tail costs one more round. */
  function PushRank(s: State, t: Tid): nat {
    match s.PcOf(t)
    case Idle => 0
    case Entering(_) => 4
    case Loaded(_, seen) => if seen == s.tail then 3 else 6
    case Linked(_, seen) => if seen == s.tail then 2 else 5
    case Counting => 1
  }

  lemma OwnPushStep(s: State, t: Tid) returns (s1: State)
    requires !s.PcOf(t).Idle?
    ensures Next(s, OwnPush(s.PcOf(t), t)) == Some(s1) && PushRank(s1, t) < PushRank(s, t)
    ensures Effect(s, OwnPush(s.PcOf(t), t))
         == if s.PcOf(t).Linked? && s.PcOf(t).seen == s.tail then Push(s.PcOf(t).node) else Silent
    ensures if s.PcOf(t).Linked? && s.PcOf(t).seen == s.tail then s1.PcOf(t).Counting?
            else if s.PcOf(t).Counting? then s1.PcOf(t).Idle?
            else !s1.PcOf(t).Idle? && !s1.PcOf(t).Counting? && s1.PcOf(t).node == s.PcOf(t).node
  {
    s1 := Next(s, OwnPush(s.PcOf(t), t)).value;
  }

  /** A producer that is left alone, wherever it is in enqueue and however outdated what it has
      seen, pushes its node unless it has already, and returns. */
  lemma EnqueueFinishes(s: State, t: Tid) returns (p: seq<Action>, s': State)
    requires !s.PcOf(t).Idle?
    ensures Does(s, p, if s.PcOf(t).Counting? then [] else [Push(s.PcOf(t).node)], s') && s'.PcOf(t).Idle?
    ensures forall i :: 0 <= i < |p| ==> !p[i].ReadCount? && !p[i].LoadTop? && !p[i].LoadNext? && !p[i].CasPop?
                                          && !p[i].Uncount? && !p[i].Begin? && p[i].tid == t
    decreases PushRank(s, t)
  {
    hide Next, Effect, PushRank, Does;
    var a := OwnPush(s.PcOf(t), t);
    var s1 := OwnPushStep(s, t);
    if s1.PcOf(t).Idle? {
      DoesNothing(s1);
      p, s' := [], s1;
    } else {
      p, s' := EnqueueFinishes(s1, t);
    }
    var rest := if s1.PcOf(t).Idle? || s1.PcOf(t).Counting? then [] else [Push(s1.PcOf(t).node)];
    First(s, a, s1, p, rest, s');
    p := [a] + p;
  }

  function OwnPop(c: Cpc): Action {
    match c
    case Resting => ReadCount
    case Looping => LoadTop
    case SawTop(_) => LoadNext
    case SawNext(_, _) => CasPop(true)
    case Uncounting(_) => Uncount
  }

  function PopRank(s: State): nat {
    match s.consumer
    case Resting => 0
    case Looping => 4
    case SawTop(top) => if s.tail == Some(top) then 3 else 6
    case SawNext(top, _) => if s.tail == Some(top) then 2 else 5
    case Uncounting(_) => 1
  }

  lemma OwnPopStep(s: State) returns (s1: State)
    requires !s.consumer.Resting? && (s.consumer.Uncounting? || s.tail.Some?)
    ensures Next(s, OwnPop(s.consumer)) == Some(s1) && PopRank(s1) < PopRank(s)
    ensures Effect(s, OwnPop(s.consumer))
         == if s.consumer.SawNext? && s.tail == Some(s.consumer.top) then Pop(s.consumer.top) else Silent
    ensures if s.consumer.SawNext? && s.tail == Some(s.consumer.top) then s1.consumer.Uncounting?
            else if s.consumer.Uncounting? then s1.consumer.Resting?
            else !s1.consumer.Resting? && !s1.consumer.Uncounting? && s1.tail == s.tail
  {
    s1 := Next(s, OwnPop(s.consumer)).value;
  }

  lemma PopFinishes(s: State) returns (p: seq<Action>, s': State)
    requires !s.consumer.Resting? && (s.consumer.Uncounting? || s.tail.Some?)
    ensures Does(s, p, if s.consumer.Uncounting? then [] else [Pop(s.tail.value)], s') && s'.consumer.Resting?
    ensures forall i :: 0 <= i < |p| ==> p[i].LoadTop? || p[i].LoadNext? || p[i].CasPop? || p[i].Uncount?
    decreases PopRank(s)
  {
    hide Next, Effect, PopRank, Does;
    var a := OwnPop(s.consumer);
    var s1 := OwnPopStep(s);
    if s1.consumer.Resting? {
      DoesNothing(s1);
      p, s' := [], s1;
    } else {
      p, s' := PopFinishes(s1);
    }
    var rest := if s1.consumer.Resting? || s1.consumer.Uncounting? then [] else [Pop(s1.tail.value)];
    First(s, a, s1, p, rest, s');
    p := [a] + p;
  }

  /** The consumer left alone, wherever it is in dequeue past the size check, pops the top of the
      chain as it is now, unless it has popped already, and returns. */
  lemma DequeueFinishes(ss: seq<State>, acts: seq<Action>, i: nat) returns (chain: seq<Node>, p: seq<Action>, s': State)
    requires Run(ss, acts) && i < |ss| && !ss[i].consumer.Resting?
    ensures Chain(ss[i], chain) && (ss[i].consumer.Uncounting? || chain != [])
    ensures Does(ss[i], p, if ss[i].consumer.Uncounting? then [] else [Pop(chain[0])], s') && s'.consumer.Resting?
    ensures forall j :: 0 <= j < |p| ==> p[j].LoadTop? || p[j].LoadNext? || p[j].CasPop? || p[j].Uncount?
  {
    chain := RefinesStack(ss, acts, i);
    p, s' := PopFinishes(ss[i]);
  }

  // ---- a call among others ------------------------------------------------------------

  /** The pushes of thread t among steps b up to j. */
  ghost function PushesOf(ss: seq<State>, acts: seq<Action>, t: Tid, b: nat, j: nat): seq<Op>
    requires Run(ss, acts) && b <= j <= |acts|
  {
    if j == b then []
    else PushesOf(ss, acts, t, b, j - 1)
         + if acts[j - 1].CasPush? && acts[j - 1].tid == t then Shown(Effect(ss[j - 1], acts[j - 1])) else []
  }

  ghost function PopsIn(ss: seq<State>, acts: seq<Action>, b: nat, j: nat): seq<Op>
    requires Run(ss, acts) && b <= j <= |acts|
  {
    if j == b then []
    else PopsIn(ss, acts, b, j - 1) + if acts[j - 1].CasPop? then Shown(Effect(ss[j - 1], acts[j - 1])) else []
  }

  /** Where a producer is that entered with node n, by the pushes it has done since. */
  predicate Underway(pc: Pc, n: Node, pushes: seq<Op>) {
    || ((pc.Entering? || pc.Loaded? || pc.Linked?) && pc.node == n && pushes == [])
    || (pc.Counting? && pushes == [Push(n)])
  }

  lemma ProducerStep(s: State, a: Action, s': State, t: Tid, n: Node, pushes: seq<Op>)
    requires Next(s, a) == Some(s') && Underway(s.PcOf(t), n, pushes)
    ensures var more := pushes + if a.CasPush? && a.tid == t then Shown(Effect(s, a)) else [];
            if s'.PcOf(t).Idle? then a == Count(t) && more == [Push(n)] else Underway(s'.PcOf(t), n, more)
  {
  }

  lemma EnqueueBegins(s: State, s': State, t: Tid, n: Node)
    requires Next(s, Begin(t, n)) == Some(s')
    ensures Underway(s'.PcOf(t), n, [])
  {
  }

  lemma {:induction false} EnqueueSoFar(ss: seq<State>, acts: seq<Action>, b: nat, j: nat, t: Tid, n: Node)
    requires Run(ss, acts) && b < j < |ss| && acts[b] == Begin(t, n)
    requires forall m :: b < m <= j ==> !ss[m].PcOf(t).Idle?
    ensures Underway(ss[j].PcOf(t), n, PushesOf(ss, acts, t, b, j))
    decreases j
  {
    hide Next, Effect, Underway;
    assert Next(ss[j - 1], acts[j - 1]) == Some(ss[j]);
    if j == b + 1 {
      EnqueueBegins(ss[b], ss[j], t, n);
      assert PushesOf(ss, acts, t, b, b) == PushesOf(ss, acts, t, b, j) == [];
    } else {
      EnqueueSoFar(ss, acts, b, j - 1, t, n);
      ProducerStep(ss[j - 1], acts[j - 1], ss[j], t, n, PushesOf(ss, acts, t, b, j - 1));
    }
  }

  lemma NotBackYet(pc: Pc, n: Node)
    requires Underway(pc, n, [])
    ensures !pc.Idle?
  {
  }

  /** In every interleaving an enqueue that has returned pushed exactly once, between its call
      and its return, and what it pushed is the node it was called with. */
  lemma EnqueueIsOnePush(ss: seq<State>, acts: seq<Action>, b: nat, j: nat, t: Tid, n: Node)
    requires Run(ss, acts) && b < j < |ss| && acts[b] == Begin(t, n)
    requires (forall m :: b < m < j ==> !ss[m].PcOf(t).Idle?) && ss[j].PcOf(t).Idle?
    ensures PushesOf(ss, acts, t, b, j) == [Push(n)]
  {
    hide Next, Effect, Underway;
    assert Next(ss[j - 1], acts[j - 1]) == Some(ss[j]);
    if j == b + 1 {
      EnqueueBegins(ss[b], ss[j], t, n);
      NotBackYet(ss[j].PcOf(t), n);
    } else {
      EnqueueSoFar(ss, acts, b, j - 1, t, n);
      ProducerStep(ss[j - 1], acts[j - 1], ss[j], t, n, PushesOf(ss, acts, t, b, j - 1));
    }
  }

  predicate Taking(c: Cpc, pops: seq<Op>) {
    || ((c.Looping? || c.SawTop? || c.SawNext?) && pops == [])
    || (c.Uncounting? && pops == [Pop(c.top)])
  }

  lemma ConsumerStep(s: State, a: Action, s': State, pops: seq<Op>)
    requires Next(s, a) == Some(s') && Taking(s.consumer, pops) && (s.consumer.Looping? ==> s.tail.Some?)
    ensures var more := pops + if a.CasPop? then Shown(Effect(s, a)) else [];
            if s'.consumer.Resting? then exists x :: more == [Pop(x)] && s'.clients == s.clients + {x}
            else Taking(s'.consumer, more)
  {
    if s'.consumer.Resting? {
      assert pops == [Pop(s.consumer.top)] && s'.clients == s.clients + {s.consumer.top};
    }
  }

  lemma {:induction false} DequeueSoFar(ss: seq<State>, acts: seq<Action>, b: nat, j: nat)
    requires Run(ss, acts) && b < j < |ss| && acts[b] == ReadCount
    requires forall m :: b < m <= j ==> !ss[m].consumer.Resting?
    ensures Taking(ss[j].consumer, PopsIn(ss, acts, b, j))
    decreases j
  {
    assert Next(ss[j - 1], acts[j - 1]) == Some(ss[j]);
    if j == b + 1 {
      assert PopsIn(ss, acts, b, b) == [];
    } else {
      DequeueSoFar(ss, acts, b, j - 1);
      ConsumerFindsWhatItCounted(ss, acts, j - 1);
      ConsumerStep(ss[j - 1], acts[j - 1], ss[j], PopsIn(ss, acts, b, j - 1));
    }
  }

  /** In every interleaving a dequeue that has passed the size check returns only after exactly
      one pop, and hands the popped node to its client. */
  lemma DequeueIsOnePop(ss: seq<State>, acts: seq<Action>, b: nat, j: nat) returns (x: Node)
    requires Run(ss, acts) && b + 1 < j < |ss| && acts[b] == ReadCount
    requires (forall m :: b < m < j ==> !ss[m].consumer.Resting?) && ss[j].consumer.Resting?
    ensures PopsIn(ss, acts, b, j) == [Pop(x)] && x in ss[j].clients
  {
    assert Next(ss[j - 1], acts[j - 1]) == Some(ss[j]);
    DequeueSoFar(ss, acts, b, j - 1);
    ConsumerFindsWhatItCounted(ss, acts, j - 1);
    ConsumerStep(ss[j - 1], acts[j - 1], ss[j], PopsIn(ss, acts, b, j - 1));
    x :| PopsIn(ss, acts, b, j) == [Pop(x)] && ss[j].clients == ss[j - 1].clients + {x};
  }

  // ---- lock freedom ---------------------------------------------------------------------

  ghost predicate AllSilent(ss: seq<State>, acts: seq<Action>, b: nat, j: nat)
    requires Run(ss, acts) && j <= |acts|
  {
    forall m :: b <= m < j ==> Effect(ss[m], acts[m]).Silent?
  }

  lemma SilentKeepsTail(s: State, a: Action, s': State)
    requires Next(s, a) == Some(s') && Effect(s, a).Silent?
    ensures s'.tail == s.tail
  {
  }

  lemma {:induction false} SeenTailStays(ss: seq<State>, acts: seq<Action>, b: nat, j: nat, t: Tid)
    requires Run(ss, acts) && b < j <= |acts| && acts[b] == LoadTail(t) && AllSilent(ss, acts, b, j)
    requires forall m :: b < m < j ==> acts[m] != LoadTail(t)
    ensures ss[j].tail == ss[b].tail
    ensures ss[j].PcOf(t).Loaded? || ss[j].PcOf(t).Linked? ==> ss[j].PcOf(t).seen == ss[b].tail
    decreases j
  {
    assert Next(ss[j - 1], acts[j - 1]) == Some(ss[j]);
    SilentKeepsTail(ss[j - 1], acts[j - 1], ss[j]);
    if j > b + 1 {
      SeenTailStays(ss, acts, b, j - 1, t);
    }
  }

  /** When a producer's exchange fails, and not spuriously, another push or pop has succeeded
      since it loaded the tail: whoever has to retry, somebody got through. */
  lemma FailedPushMeansProgress(ss: seq<State>, acts: seq<Action>, b: nat, j: nat, t: Tid) returns (m: nat)
    requires Run(ss, acts) && b < j < |acts| && acts[b] == LoadTail(t) && acts[j] == CasPush(t, true)
    requires forall k :: b < k < j ==> acts[k] != LoadTail(t)
    requires Effect(ss[j], acts[j]).Silent?
    ensures b < m < j && !Effect(ss[m], acts[m]).Silent?
  {
    assert Next(ss[j], acts[j]) == Some(ss[j + 1]);
    if AllSilent(ss, acts, b, j) {
      SeenTailStays(ss, acts, b, j, t);
      assert false;
    }
    m :| b <= m < j && !Effect(ss[m], acts[m]).Silent?;
  }

  lemma {:induction false} SeenTopStays(ss: seq<State>, acts: seq<Action>, b: nat, j: nat)
    requires Run(ss, acts) && b < j <= |acts| && acts[b] == LoadTop && AllSilent(ss, acts, b, j)
    requires forall m :: b < m < j ==> acts[m] != LoadTop
    ensures ss[j].tail == ss[b].tail
    ensures ss[j].consumer.SawTop? || ss[j].consumer.SawNext? ==> ss[b].tail == Some(ss[j].consumer.top)
    decreases j
  {
    assert Next(ss[j - 1], acts[j - 1]) == Some(ss[j]);
    SilentKeepsTail(ss[j - 1], acts[j - 1], ss[j]);
    if j > b + 1 {
      SeenTopStays(ss, acts, b, j - 1);
    }
  }

  lemma OnlyThisConsumerPops(ss: seq<State>, acts: seq<Action>, b: nat, j: nat, m: nat)
    requires Run(ss, acts) && b < m < j < |acts| && acts[b] == LoadTop && acts[j].CasPop?
    requires forall k :: b < k < j ==> acts[k] != LoadTop
    ensures !Effect(ss[m], acts[m]).Pop?
  {
    if Effect(ss[m], acts[m]).Pop? {
      assert Next(ss[m], acts[m]) == Some(ss[m + 1]);
      assert Next(ss[j], acts[j]) == Some(ss[j + 1]);
      StaysAway(ss, acts, m + 1, j);
      assert false;
    }
  }

  lemma {:induction false} StaysAway(ss: seq<State>, acts: seq<Action>, m: nat, j: nat)
    requires Run(ss, acts) && m <= j < |acts| && (forall k :: m <= k < j ==> acts[k] != LoadTop)
    requires !ss[m].consumer.SawTop? && !ss[m].consumer.SawNext?
    ensures !ss[j].consumer.SawTop? && !ss[j].consumer.SawNext?
    decreases j
  {
    if m < j {
      StaysAway(ss, acts, m, j - 1);
      assert Next(ss[j - 1], acts[j - 1]) == Some(ss[j]);
    }
  }

  /** When the consumer's exchange fails, and not spuriously, a producer has pushed since it
      loaded the tail. */
  lemma FailedPopMeansPush(ss: seq<State>, acts: seq<Action>, b: nat, j: nat) returns (m: nat)
    requires Run(ss, acts) && b < j < |acts| && acts[b] == LoadTop && acts[j] == CasPop(true)
    requires forall k :: b < k < j ==> acts[k] != LoadTop
    requires Effect(ss[j], acts[j]).Silent?
    ensures b < m < j && Effect(ss[m], acts[m]).Push?
  {
    assert Next(ss[j], acts[j]) == Some(ss[j + 1]);
    if AllSilent(ss, acts, b, j) {
      SeenTopStays(ss, acts, b, j);
      assert false;
    }
    m :| b <= m < j && !Effect(ss[m], acts[m]).Silent?;
    OnlyThisConsumerPops(ss, acts, b, j, m);
  }
}
