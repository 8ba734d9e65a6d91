/** `mpsc_lifo_list_queue`: the lock-free linked stack with any number of producers and one
    consumer at a time (the page allocator pops under its mutex).

    One step is one atomic load, store, compare-exchange or fetch_add. Every
    compare-exchange is weak: it may fail although the values agree. Nodes are offsets in
    shared memory; a popped node goes back to its client, who may push it again. */
module MpscStack {
  import opened Wrappers
  import opened Threads

  type Node = nat
  type Link = Option<Node>

  /** A producer inside enqueue(node). */
  datatype Pc =
    | Idle
    | Entering(node: Node)               // about to load tail_shm_
    | Loaded(node: Node, seen: Link)     // about to store node->next_shm_
    | Linked(node: Node, seen: Link)     // about to compare-exchange tail_shm_
    | Counting                           // pushed, about to ++count_

  /** The consumer inside dequeue(). */
  datatype Cpc =
    | Resting
    | Looping                            // read a nonzero count_, about to load tail_shm_
    | SawTop(top: Node)                  // about to load top->next_shm_
    | SawNext(top: Node, next: Link)     // about to compare-exchange tail_shm_
    | Uncounting(top: Node)              // popped, about to --count_

  /** `clients` are the nodes in client hands: the only ones a client may push. */
  datatype State = State(tail: Link, next: map<Node, Link>, count: nat,
                         pcs: map<Tid, Pc>, consumer: Cpc, clients: set<Node>) {
    function PcOf(t: Tid): Pc {
      if t in pcs then pcs[t] else Idle
    }

    function NextOf(n: Node): Link {
      if n in next then next[n] else None
    }
  }

  datatype Action =
    | Begin(tid: Tid, node: Node) | LoadTail(tid: Tid) | StoreNext(tid: Tid)
    | CasPush(tid: Tid, ok: bool) | Count(tid: Tid)
    | ReadCount | LoadTop | LoadNext | CasPop(ok: bool) | Uncount

  predicate Init(s: State) {
    s.tail == None && s.count == 0 && s.pcs == map[] && s.consumer == Resting
  }

  function Next(s: State, a: Action): Option<State> {
    match a
    case Begin(t, n) =>
      if s.PcOf(t).Idle? && n in s.clients
      then Some(s.(pcs := s.pcs[t := Entering(n)], clients := s.clients - {n})) else None
    case LoadTail(t) =>
      var pc := s.PcOf(t);
      if pc.Entering? then Some(s.(pcs := s.pcs[t := Loaded(pc.node, s.tail)])) else None
    case StoreNext(t) =>
      var pc := s.PcOf(t);
      if pc.Loaded?
      then Some(s.(pcs := s.pcs[t := Linked(pc.node, pc.seen)], next := s.next[pc.node := pc.seen])) else None
    case CasPush(t, ok) =>
      var pc := s.PcOf(t);
      if !pc.Linked? then None
      else if ok && s.tail == pc.seen then Some(s.(pcs := s.pcs[t := Counting], tail := Some(pc.node)))
      else Some(s.(pcs := s.pcs[t := Entering(pc.node)]))
    case Count(t) =>
      if s.PcOf(t).Counting? then Some(s.(pcs := s.pcs[t := Idle], count := s.count + 1)) else None
    case ReadCount =>
      if !s.consumer.Resting? then None
      else Some(s.(consumer := if s.count == 0 then Resting else Looping))
    case LoadTop =>
      if !s.consumer.Looping? then None
      else if s.tail.None? then Some(s.(consumer := Resting))
      else Some(s.(consumer := SawTop(s.tail.value)))
    case LoadNext =>
      if s.consumer.SawTop?
      then Some(s.(consumer := SawNext(s.consumer.top, s.NextOf(s.consumer.top)))) else None
    case CasPop(ok) =>
      if !s.consumer.SawNext? then None
      else if ok && s.tail == Some(s.consumer.top)
      then Some(s.(consumer := Uncounting(s.consumer.top), tail := s.consumer.next))
      else Some(s.(consumer := Looping))
    case Uncount =>
      // --count_ on an unsigned counter; NeverUnderflows shows it is positive
      if s.consumer.Uncounting?
      then Some(s.(consumer := Resting, clients := s.clients + {s.consumer.top},
                   count := if s.count == 0 then 0 else s.count - 1)) else None
  }

  // ---- the abstract stack ----------------------------------------------------------

  /** What a step does to the abstract stack. */
  datatype Op = Push(node: Node) | Pop(node: Node) | Silent

  /** A successful compare-exchange is exactly one push or pop; nothing else is visible. */
  function Effect(s: State, a: Action): Op {
    if a.CasPush? && s.PcOf(a.tid).Linked? && a.ok && s.tail == s.PcOf(a.tid).seen
    then Push(s.PcOf(a.tid).node)
    else if a.CasPop? && s.consumer.SawNext? && a.ok && s.tail == Some(s.consumer.top)
    then Pop(s.consumer.top)
    else Silent
  }

  /** The specification: a stack, top first. Popping anything but the top is illegal. */
  function Apply(stack: seq<Node>, op: Op): Option<seq<Node>> {
    match op
    case Silent => Some(stack)
    case Push(n) => Some([n] + stack)
    case Pop(n) => if stack != [] && stack[0] == n then Some(stack[1..]) else None
  }

  function Replay(ops: seq<Op>): Option<seq<Node>> {
    if ops == [] then Some([])
    else
      var before := Replay(ops[..|ops| - 1]);
      if before.None? then None else Apply(before.value, ops[|ops| - 1])
  }

  // ---- invariant -------------------------------------------------------------------

  function LinkAt(chain: seq<Node>, i: nat): Link {
    if i < |chain| then Some(chain[i]) else None
  }

  /** Following next_shm_ from tail_shm_ visits `chain`, without repetition, and ends. */
  ghost predicate Chain(s: State, chain: seq<Node>) {
    && s.tail == LinkAt(chain, 0)
    && (forall i | 0 <= i < |chain| :: s.NextOf(chain[i]) == LinkAt(chain, i + 1))
    && (forall i, j | 0 <= i < j < |chain| :: chain[i] != chain[j])
  }

  predicate InHand(pc: Pc, n: Node) {
    (pc.Entering? || pc.Loaded? || pc.Linked?) && pc.node == n
  }

  predicate IsCounting(pc: Pc) {
    pc.Counting?
  }

  /** Every node is in one place: with a client, with one producer, on the stack, or with
      the consumer. */
  ghost predicate OnePlace(s: State, chain: seq<Node>) {
    && (forall n :: n in s.clients ==> n !in chain)
    && (forall t, n :: InHand(s.PcOf(t), n) ==> n !in chain && n !in s.clients)
    && (forall t, u, n :: InHand(s.PcOf(t), n) && InHand(s.PcOf(u), n) ==> t == u)
    && (s.consumer.Uncounting? ==>
          s.consumer.top !in chain && s.consumer.top !in s.clients
          && forall t :: !InHand(s.PcOf(t), s.consumer.top))
  }

  /** What the threads remember is still true of the nodes they hold. */
  ghost predicate Remembered(s: State, chain: seq<Node>) {
    && (forall t :: s.PcOf(t).Linked? ==> s.NextOf(s.PcOf(t).node) == s.PcOf(t).seen)
    && (s.consumer.SawTop? || s.consumer.SawNext? ==> s.consumer.top in chain)
    && (s.consumer.SawNext? ==> s.NextOf(s.consumer.top) == s.consumer.next)
  }

  /** count_ lags the chain by the producers between their push and their ++, and leads it
      by the consumer between its pop and its --. */
  ghost predicate Tally(s: State, chain: seq<Node>) {
    && s.count + |Having(s.pcs, IsCounting)| == |chain| + One(s.consumer.Uncounting?)
    && (!s.consumer.Resting? ==> s.count > 0)
  }

  ghost predicate Inv(s: State, chain: seq<Node>) {
    Chain(s, chain) && OnePlace(s, chain) && Remembered(s, chain) && Tally(s, chain)
  }

  /** A step touches only its own thread's program counter, and only StoreNext writes a
      link, of a node in its own hand. */
  lemma Frame(s: State, a: Action, s': State)
    requires Next(s, a) == Some(s')
    ensures forall t :: s'.PcOf(t) == s.PcOf(t) || (!a.ReadCount? && !a.LoadTop? && !a.LoadNext? && !a.CasPop? && !a.Uncount? && t == a.tid)
    ensures !a.StoreNext? ==> s'.next == s.next
    ensures a.StoreNext? ==> InHand(s.PcOf(a.tid), s.PcOf(a.tid).node)
                             && forall n :: n != s.PcOf(a.tid).node ==> s'.NextOf(n) == s.NextOf(n)
    ensures forall t, n :: InHand(s'.PcOf(t), n) ==> InHand(s.PcOf(t), n) || (a == Begin(t, n) && n in s.clients)
    ensures forall t :: s'.PcOf(t).Linked? ==>
      s'.PcOf(t) == s.PcOf(t) || (a == StoreNext(t) && s'.NextOf(s'.PcOf(t).node) == s'.PcOf(t).seen)
  {
  }

  /** Tops a chain with one more node. */
  lemma ChainPush(s: State, s': State, chain: seq<Node>, n: Node)
    requires Chain(s, chain) && n !in chain && s.NextOf(n) == s.tail
    requires s'.tail == Some(n) && s'.next == s.next
    ensures Chain(s', [n] + chain)
  {
    var c := [n] + chain;
    forall i | 0 <= i < |c| ensures s'.NextOf(c[i]) == LinkAt(c, i + 1) {
      if i > 0 { assert c[i] == chain[i - 1]; }
    }
  }

  lemma ChainPop(s: State, s': State, chain: seq<Node>)
    requires Chain(s, chain) && chain != []
    requires s'.tail == s.NextOf(chain[0]) && s'.next == s.next
    ensures Chain(s', chain[1..]) && chain[0] !in chain[1..]
  {
  }

  lemma ChainStep(s: State, a: Action, s': State, chain: seq<Node>) returns (chain': seq<Node>)
    requires Inv(s, chain) && Next(s, a) == Some(s')
    ensures Apply(chain, Effect(s, a)) == Some(chain') && Chain(s', chain')
  {
    match Effect(s, a) {
      case Push(n) =>
        assert InHand(s.PcOf(a.tid), n);
        chain' := [n] + chain;
        ChainPush(s, s', chain, n);
      case Pop(n) =>
        chain' := chain[1..];
        ChainPop(s, s', chain);
      case Silent =>
        chain' := chain;
        Frame(s, a, s');
        forall i | 0 <= i < |chain|
          ensures s'.NextOf(chain[i]) == s.NextOf(chain[i])
        {
          assert chain[i] in chain;
        }
    }
  }

  lemma ClientsApart(s: State, a: Action, s': State, chain: seq<Node>, chain': seq<Node>, n: Node)
    requires Chain(s, chain) && OnePlace(s, chain) && Next(s, a) == Some(s')
    requires Apply(chain, Effect(s, a)) == Some(chain') && n in s'.clients
    ensures n !in chain'
  {
    hide Chain;
    if Effect(s, a).Push? {
      assert InHand(s.PcOf(a.tid), Effect(s, a).node);
    }
    assert n in s.clients || (a.Uncount? && n == s.consumer.top);
  }

  /** What a step can put on the chain or give to the clients. */
  lemma PlacesFollow(s: State, a: Action, s': State, chain: seq<Node>, chain': seq<Node>)
    requires Next(s, a) == Some(s') && Apply(chain, Effect(s, a)) == Some(chain')
    ensures forall m :: m in chain' ==> m in chain || Effect(s, a) == Push(m)
    ensures forall m :: m in s'.clients ==> m in s.clients || (a.Uncount? && s.consumer.Uncounting? && m == s.consumer.top)
    ensures Effect(s, a).Push? ==> InHand(s.PcOf(a.tid), Effect(s, a).node) && IsCounting(s'.PcOf(a.tid))
    ensures a.Begin? ==> a.node in s.clients && a.node !in s'.clients && Effect(s, a).Silent?
  {
  }

  lemma HandsApart(s: State, a: Action, s': State, chain: seq<Node>, chain': seq<Node>, t: Tid, n: Node)
    requires OnePlace(s, chain) && Next(s, a) == Some(s')
    requires Apply(chain, Effect(s, a)) == Some(chain') && InHand(s'.PcOf(t), n)
    ensures n !in chain' && n !in s'.clients
  {
    Frame(s, a, s');
    PlacesFollow(s, a, s', chain, chain');
    hide Next, Apply, Effect;
    if InHand(s.PcOf(t), n) {
      assert n !in chain && n !in s.clients;
      if Effect(s, a).Push? {
        assert t != a.tid;
      }
    }
  }

  lemma HandsDiffer(s: State, a: Action, s': State, chain: seq<Node>, t: Tid, u: Tid, n: Node)
    requires OnePlace(s, chain) && Next(s, a) == Some(s')
    requires InHand(s'.PcOf(t), n) && InHand(s'.PcOf(u), n)
    ensures t == u
  {
    Frame(s, a, s');
  }

  lemma ConsumerApart(s: State, a: Action, s': State, chain: seq<Node>, chain': seq<Node>)
    requires Chain(s, chain) && OnePlace(s, chain) && Remembered(s, chain) && Next(s, a) == Some(s')
    requires Apply(chain, Effect(s, a)) == Some(chain') && s'.consumer.Uncounting?
    ensures s'.consumer.top !in chain' && s'.consumer.top !in s'.clients
    ensures forall t :: !InHand(s'.PcOf(t), s'.consumer.top)
  {
    Frame(s, a, s');
    if Effect(s, a).Push? {
      assert InHand(s.PcOf(a.tid), Effect(s, a).node);
    }
    if Effect(s, a).Pop? {
      assert s'.consumer.top == chain[0] && chain[0] in chain;
      ChainPop(s, s', chain);
    }
  }

  lemma OnePlaceStep(s: State, a: Action, s': State, chain: seq<Node>, chain': seq<Node>)
    requires Inv(s, chain) && Next(s, a) == Some(s')
    requires Apply(chain, Effect(s, a)) == Some(chain') && Chain(s', chain')
    ensures OnePlace(s', chain')
  {
    hide Next, Chain, Apply, Effect, Remembered, Tally, InHand;
    forall n | n in s'.clients ensures n !in chain' {
      ClientsApart(s, a, s', chain, chain', n);
    }
    forall t, n | InHand(s'.PcOf(t), n) ensures n !in chain' && n !in s'.clients {
      HandsApart(s, a, s', chain, chain', t, n);
    }
    forall t, u, n | InHand(s'.PcOf(t), n) && InHand(s'.PcOf(u), n) ensures t == u {
      HandsDiffer(s, a, s', chain, t, u, n);
    }
    if s'.consumer.Uncounting? {
      ConsumerApart(s, a, s', chain, chain');
    }
  }

  lemma RememberedStep(s: State, a: Action, s': State, chain: seq<Node>, chain': seq<Node>)
    requires Inv(s, chain) && Next(s, a) == Some(s')
    requires Apply(chain, Effect(s, a)) == Some(chain') && Chain(s', chain')
    ensures Remembered(s', chain')
  {
    Frame(s, a, s');
    forall t | s'.PcOf(t).Linked?
      ensures s'.NextOf(s'.PcOf(t).node) == s'.PcOf(t).seen
    {
      assert InHand(s'.PcOf(t), s'.PcOf(t).node);
    }
    assert Effect(s, a).Push? ==> forall n :: n in chain ==> n in chain';
    if a.LoadTop? && s.tail.Some? {
      assert chain[0] in chain;
    }
  }

  lemma TallyStep(s: State, a: Action, s': State, chain: seq<Node>, chain': seq<Node>)
    requires Inv(s, chain) && Next(s, a) == Some(s')
    requires Apply(chain, Effect(s, a)) == Some(chain')
    ensures Tally(s', chain')
  {
    if a.Begin? || a.LoadTail? || a.StoreNext? || a.CasPush? || a.Count? {
      HavingAfterMove(s.pcs, a.tid, s'.PcOf(a.tid), IsCounting);
    }
  }

  // ---- runs ------------------------------------------------------------------------

  ghost predicate Run(ss: seq<State>, acts: seq<Action>) {
    && |ss| == |acts| + 1
    && Init(ss[0])
    && forall i | 0 <= i < |acts| :: Next(ss[i], acts[i]) == Some(ss[i + 1])
  }

  /** What the first i steps of a run did to the abstract stack. */
  ghost function Ops(ss: seq<State>, acts: seq<Action>, i: nat): seq<Op>
    requires Run(ss, acts) && i <= |acts|
  {
    if i == 0 then [] else Ops(ss, acts, i - 1) + [Effect(ss[i - 1], acts[i - 1])]
  }

  lemma InvStep(s: State, a: Action, s': State, chain: seq<Node>) returns (chain': seq<Node>)
    requires Inv(s, chain) && Next(s, a) == Some(s')
    ensures Apply(chain, Effect(s, a)) == Some(chain') && Inv(s', chain')
  {
    chain' := ChainStep(s, a, s', chain);
    OnePlaceStep(s, a, s', chain, chain');
    RememberedStep(s, a, s', chain, chain');
    TallyStep(s, a, s', chain, chain');
  }

  lemma InitInv(s: State)
    requires Init(s)
    ensures Inv(s, [])
  {
  }

  lemma ReplayOneMore(ops: seq<Op>, op: Op)
    requires Replay(ops).Some?
    ensures Replay(ops + [op]) == Apply(Replay(ops).value, op)
  {
    assert (ops + [op])[..|ops|] == ops;
  }

  /** Refinement: in every interleaving the pushes and pops seen so far are a legal history
      of a stack, and the linked nodes are that stack. */
  lemma {:induction false} RefinesStack(ss: seq<State>, acts: seq<Action>, i: nat) returns (chain: seq<Node>)
    requires Run(ss, acts) && i < |ss|
    ensures Replay(Ops(ss, acts, i)) == Some(chain) && Inv(ss[i], chain)
  {
    hide Inv, Next;
    if i == 0 {
      InitInv(ss[0]);
      chain := [];
    } else {
      var before := RefinesStack(ss, acts, i - 1);
      assert Next(ss[i - 1], acts[i - 1]) == Some(ss[i]);
      chain := InvStep(ss[i - 1], acts[i - 1], ss[i], before);
      ReplayOneMore(Ops(ss, acts, i - 1), Effect(ss[i - 1], acts[i - 1]));
    }
  }

  // ---- consequences ----------------------------------------------------------------

  function Pushed(ops: seq<Op>): multiset<Node> {
    if ops == [] then multiset{}
    else Pushed(ops[..|ops| - 1]) + if ops[|ops| - 1].Push? then multiset{ops[|ops| - 1].node} else multiset{}
  }

  function Popped(ops: seq<Op>): multiset<Node> {
    if ops == [] then multiset{}
    else Popped(ops[..|ops| - 1]) + if ops[|ops| - 1].Pop? then multiset{ops[|ops| - 1].node} else multiset{}
  }

  lemma {:induction false} LegalHistoryConserves(ops: seq<Op>)
    requires Replay(ops).Some?
    ensures Pushed(ops) == Popped(ops) + multiset(Replay(ops).value)
  {
    if ops != [] {
      var last := ops[|ops| - 1];
      var before := Replay(ops[..|ops| - 1]).value;
      LegalHistoryConserves(ops[..|ops| - 1]);
      if last.Pop? {
        assert before == [last.node] + before[1..];
      }
    }
  }

  /** No node is lost and none is returned twice: counted with multiplicity, what has been
      pushed is what has been popped plus what is linked, also when popped nodes are pushed
      again. */
  lemma NodesAreConserved(ss: seq<State>, acts: seq<Action>, i: nat) returns (chain: seq<Node>)
    requires Run(ss, acts) && i < |ss|
    ensures Chain(ss[i], chain)
    ensures Pushed(Ops(ss, acts, i)) == Popped(Ops(ss, acts, i)) + multiset(chain)
  {
    chain := RefinesStack(ss, acts, i);
    LegalHistoryConserves(Ops(ss, acts, i));
  }

  /** No ABA: whenever the consumer's compare-exchange succeeds, the link it installs is the
      current link of the node it removes, however long ago it was read. */
  lemma PopInstallsTheCurrentLink(ss: seq<State>, acts: seq<Action>, i: nat)
    requires Run(ss, acts) && i < |acts| && Effect(ss[i], acts[i]).Pop?
    ensures ss[i + 1].tail == ss[i].NextOf(Effect(ss[i], acts[i]).node)
  {
    var chain := RefinesStack(ss, acts, i);
    assert Next(ss[i], acts[i]) == Some(ss[i + 1]);
  }

  /** The decrement of count_ never underflows, and a consumer that read a nonzero size never
      leaves through the null-tail exit. */
  lemma ConsumerFindsWhatItCounted(ss: seq<State>, acts: seq<Action>, i: nat)
    requires Run(ss, acts) && i < |ss|
    ensures !ss[i].consumer.Resting? ==> ss[i].count > 0
    ensures ss[i].consumer.Looping? ==> ss[i].tail.Some?
  {
    var chain := RefinesStack(ss, acts, i);
  }

  /** count_ is exactly the number of linked nodes once no producer is between its push and
      its ++ and the consumer is not between its pop and its --; in general it is off by
      exactly those. */
  lemma CountIsExact(ss: seq<State>, acts: seq<Action>, i: nat) returns (chain: seq<Node>)
    requires Run(ss, acts) && i < |ss|
    ensures Chain(ss[i], chain)
    ensures ss[i].count == |chain| - |Having(ss[i].pcs, IsCounting)| + One(ss[i].consumer.Uncounting?)
  {
    chain := RefinesStack(ss, acts, i);
  }
}
