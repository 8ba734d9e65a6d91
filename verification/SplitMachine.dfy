/** split_ticket_queue with any number of threads. One step is one atomic operation: the
    fetch_add on a round-robin counter, or one try on one split, which the lock of its
    ticket_queue makes indivisible. */
module SplitMachine {
  import opened Wrappers
  import opened Threads
  import opened SplitQueue

  /** A round of tries: where it started and how many have failed. */
  datatype Pc<T> = Idle | Pushing(v: T, start: nat, tries: nat) | Popping(start: nat, tries: nat)

  datatype State<T> = State(depth: nat, splits: seq<seq<T>>, rrTail: nat, rrHead: nat, pcs: map<Tid, Pc<T>>) {
    function PcOf(t: Tid): Pc<T> {
      if t in pcs then pcs[t] else Idle
    }

    function At(t: Tid, pc: Pc<T>): State<T> {
      this.(pcs := pcs[t := pc])
    }
  }

  datatype Event<T> = BeginPush(v: T) | TryPush | GiveUpPush | BeginPop | TryPop | GiveUpPop

  datatype Action<T> = Action(tid: Tid, event: Event<T>)

  predicate Init<T>(s: State<T>) {
    && |s.splits| > 0 && (forall k :: 0 <= k < |s.splits| ==> |s.splits[k]| == 0)
    && s.rrTail == 0 && s.rrHead == 0 && s.pcs == map[]
  }

  function Next<T>(s: State<T>, a: Action<T>): Option<State<T>> {
    var t, n := a.tid, |s.splits|;
    var pc := s.PcOf(t);
    if n == 0 then None else
    match a.event
    case BeginPush(v) =>
      if pc.Idle? then Some(s.At(t, Pushing(v, Start(s.rrTail, n), 0)).(rrTail := s.rrTail + 1)) else None
    case TryPush =>
      if !(pc.Pushing? && pc.start < n && pc.tries < n) then None
      else
        var k := Visit(n, pc.start, pc.tries);
        if |s.splits[k]| < s.depth then Some(s.At(t, Idle).(splits := s.splits[k := s.splits[k] + [pc.v]]))
        else Some(s.At(t, Pushing(pc.v, pc.start, pc.tries + 1)))
    case GiveUpPush =>
      if pc.Pushing? && pc.tries == n then Some(s.At(t, Idle)) else None
    case BeginPop =>
      if pc.Idle? then Some(s.At(t, Popping(Start(s.rrHead, n), 0)).(rrHead := s.rrHead + 1)) else None
    case TryPop =>
      if !(pc.Popping? && pc.start < n && pc.tries < n) then None
      else
        var k := Visit(n, pc.start, pc.tries);
        if |s.splits[k]| > 0 then Some(s.At(t, Idle).(splits := s.splits[k := s.splits[k][1..]]))
        else Some(s.At(t, Popping(pc.start, pc.tries + 1)))
    case GiveUpPop =>
      if pc.Popping? && pc.tries == n then Some(s.At(t, Idle)) else None
  }

  /** What a step does to the splits. */
  datatype Op<T> = Enter(split: nat, v: T) | Leave(split: nat, v: T) | Silent

  function Effect<T>(s: State<T>, a: Action<T>): Op<T>
    requires Next(s, a).Some?
  {
    var pc := s.PcOf(a.tid);
    match a.event
    case TryPush =>
      var k := Visit(|s.splits|, pc.start, pc.tries);
      if |s.splits[k]| < s.depth then Enter(k, pc.v) else Silent
    case TryPop =>
      var k := Visit(|s.splits|, pc.start, pc.tries);
      if |s.splits[k]| > 0 then Leave(k, s.splits[k][0]) else Silent
    case _ => Silent
  }

  ghost predicate Run<T>(ss: seq<State<T>>, acts: seq<Action<T>>) {
    && |ss| == |acts| + 1 && Init(ss[0])
    && forall i :: 0 <= i < |acts| ==> Next(ss[i], acts[i]) == Some(ss[i + 1])
  }

  lemma {:induction false} SameSplits<T>(ss: seq<State<T>>, acts: seq<Action<T>>, i: nat)
    requires Run(ss, acts) && i < |ss|
    ensures |ss[i].splits| == |ss[0].splits| > 0 && ss[i].depth == ss[0].depth
  {
    if i > 0 {
      SameSplits(ss, acts, i - 1);
      assert Next(ss[i - 1], acts[i - 1]) == Some(ss[i]);
    }
  }

  /** What entered split k during the first i steps, in order. */
  ghost function Entered<T>(ss: seq<State<T>>, acts: seq<Action<T>>, i: nat, k: nat): seq<T>
    requires Run(ss, acts) && i <= |acts|
  {
    if i == 0 then [] else
    assert Next(ss[i - 1], acts[i - 1]) == Some(ss[i]);
    var op := Effect(ss[i - 1], acts[i - 1]);
    Entered(ss, acts, i - 1, k) + if op.Enter? && op.split == k then [op.v] else []
  }

  ghost function Left<T>(ss: seq<State<T>>, acts: seq<Action<T>>, i: nat, k: nat): seq<T>
    requires Run(ss, acts) && i <= |acts|
  {
    if i == 0 then [] else
    assert Next(ss[i - 1], acts[i - 1]) == Some(ss[i]);
    var op := Effect(ss[i - 1], acts[i - 1]);
    Left(ss, acts, i - 1, k) + if op.Leave? && op.split == k then [op.v] else []
  }

  lemma SplitStep<T>(s: State<T>, a: Action<T>, s': State<T>, k: nat)
    requires Next(s, a) == Some(s') && k < |s.splits| == |s'.splits|
    ensures var op := Effect(s, a);
            s.splits[k] + (if op.Enter? && op.split == k then [op.v] else [])
            == (if op.Leave? && op.split == k then [op.v] else []) + s'.splits[k]
    ensures |s.splits[k]| <= s.depth ==> |s'.splits[k]| <= s.depth
  {
  }

  /** In every interleaving each split is a bounded first-in first-out queue: what went in is
      what came out, in order, followed by what is there. So nothing is lost or duplicated. */
  lemma {:induction false} SplitsAreQueues<T>(ss: seq<State<T>>, acts: seq<Action<T>>, i: nat, k: nat)
    requires Run(ss, acts) && i < |ss| && k < |ss[0].splits|
    ensures k < |ss[i].splits| && |ss[i].splits[k]| <= ss[0].depth
    ensures Entered(ss, acts, i, k) == Left(ss, acts, i, k) + ss[i].splits[k]
  {
    hide Next, Effect;
    SameSplits(ss, acts, i);
    if i > 0 {
      SameSplits(ss, acts, i - 1);
      SplitsAreQueues(ss, acts, i - 1, k);
      assert Next(ss[i - 1], acts[i - 1]) == Some(ss[i]);
      SplitStep(ss[i - 1], acts[i - 1], ss[i], k);
      var op := Effect(ss[i - 1], acts[i - 1]);
      var came := if op.Enter? && op.split == k then [op.v] else [];
      var went := if op.Leave? && op.split == k then [op.v] else [];
      var before := Left(ss, acts, i - 1, k);
      assert before + ss[i - 1].splits[k] + came == before + (ss[i - 1].splits[k] + came);
      assert before + (went + ss[i].splits[k]) == before + went + ss[i].splits[k];
    }
  }

  /** Thread t is inside one push from just after step b up to state j. */
  ghost predicate PushingSince<T>(ss: seq<State<T>>, acts: seq<Action<T>>, b: nat, j: nat, t: Tid)
    requires Run(ss, acts)
  {
    && b < j < |ss| && acts[b].tid == t && acts[b].event.BeginPush?
    && forall m :: b < m <= j ==> ss[m].PcOf(t).Pushing?
  }

  ghost predicate PoppingSince<T>(ss: seq<State<T>>, acts: seq<Action<T>>, b: nat, j: nat, t: Tid)
    requires Run(ss, acts)
  {
    && b < j < |ss| && acts[b].tid == t && acts[b].event.BeginPop?
    && forall m :: b < m <= j ==> ss[m].PcOf(t).Popping?
  }

  /** Split k had no room at some moment from b on, up to j. */
  ghost predicate WasFull<T>(ss: seq<State<T>>, b: nat, j: nat, k: nat) {
    exists m :: b < m <= j < |ss| && k < |ss[m].splits| && |ss[m].splits[k]| >= ss[m].depth
  }

  ghost predicate WasEmpty<T>(ss: seq<State<T>>, b: nat, j: nat, k: nat) {
    exists m :: b < m <= j < |ss| && k < |ss[m].splits| && |ss[m].splits[k]| == 0
  }

  lemma TriesMove<T>(s: State<T>, a: Action<T>, s': State<T>, t: Tid)
    requires Next(s, a) == Some(s') && s.PcOf(t).Pushing? && s'.PcOf(t).Pushing?
    requires s.PcOf(t).start < |s.splits|
    ensures s'.PcOf(t).start == s.PcOf(t).start
    ensures s'.PcOf(t).tries == s.PcOf(t).tries
            || (s'.PcOf(t).tries == s.PcOf(t).tries + 1 && s.PcOf(t).tries < |s.splits|
                && |s.splits[Visit(|s.splits|, s.PcOf(t).start, s.PcOf(t).tries)]| >= s.depth)
  {
  }

  /** Every split tried so far in this push was full when it was tried. */
  lemma {:induction false} TriedWereFull<T>(ss: seq<State<T>>, acts: seq<Action<T>>, b: nat, j: nat, t: Tid)
    requires Run(ss, acts) && PushingSince(ss, acts, b, j, t)
    ensures ss[j].PcOf(t).start < |ss[0].splits| && ss[j].PcOf(t).tries <= |ss[0].splits|
    ensures forall i: nat :: i < ss[j].PcOf(t).tries ==> WasFull(ss, b, j, Visit(|ss[0].splits|, ss[j].PcOf(t).start, i))
    decreases j
  {
    hide Next, WasFull;
    var n := |ss[0].splits|;
    SameSplits(ss, acts, j);
    SameSplits(ss, acts, j - 1);
    assert Next(ss[j - 1], acts[j - 1]) == Some(ss[j]);
    if j == b + 1 {
      BeginsAtZero(ss[b], acts[b], ss[j]);
    } else {
      TriedWereFull(ss, acts, b, j - 1, t);
      TriesMove(ss[j - 1], acts[j - 1], ss[j], t);
      forall i: nat | i < ss[j].PcOf(t).tries
        ensures WasFull(ss, b, j, Visit(n, ss[j].PcOf(t).start, i))
      {
        var k := Visit(n, ss[j].PcOf(t).start, i);
        if i < ss[j - 1].PcOf(t).tries {
          FullStays(ss, b, j - 1, k);
        } else {
          FullNow(ss, b, j, j - 1, k);
        }
      }
    }
  }

  lemma BeginsAtZero<T>(s: State<T>, a: Action<T>, s': State<T>)
    requires Next(s, a) == Some(s') && (a.event.BeginPush? || a.event.BeginPop?)
    ensures !s'.PcOf(a.tid).Idle? && s'.PcOf(a.tid).tries == 0 && s'.PcOf(a.tid).start < |s.splits|
  {
  }

  lemma FullStays<T>(ss: seq<State<T>>, b: nat, j: nat, k: nat)
    requires WasFull(ss, b, j, k) && j + 1 < |ss|
    ensures WasFull(ss, b, j + 1, k)
  {
  }

  lemma FullNow<T>(ss: seq<State<T>>, b: nat, j: nat, m: nat, k: nat)
    requires b < m <= j < |ss| && k < |ss[m].splits| && |ss[m].splits[k]| >= ss[m].depth
    ensures WasFull(ss, b, j, k)
  {
  }

  /** A push that gives up has found every split full, each at some moment of the call. */
  lemma GivenUpPushSawAllFull<T>(ss: seq<State<T>>, acts: seq<Action<T>>, b: nat, j: nat, t: Tid, k: nat)
    requires Run(ss, acts) && PushingSince(ss, acts, b, j, t) && j < |acts|
    requires acts[j] == Action(t, GiveUpPush) && k < |ss[0].splits|
    ensures WasFull(ss, b, j, k)
  {
    hide WasFull;
    SameSplits(ss, acts, j);
    assert Next(ss[j], acts[j]) == Some(ss[j + 1]);
    TriedWereFull(ss, acts, b, j, t);
    var i := RoundVisitsAll(|ss[0].splits|, ss[j].PcOf(t).start, k);
  }

  lemma PushStarts<T>(s: State<T>, a: Action<T>, s': State<T>, t: Tid)
    requires Next(s, a) == Some(s') && s'.PcOf(t).Pushing?
    ensures |s.splits| > 0
    ensures if s.PcOf(t).Pushing?
            then s'.PcOf(t).v == s.PcOf(t).v && s'.PcOf(t).start == s.PcOf(t).start
            else a == Action(t, BeginPush(s'.PcOf(t).v)) && s'.PcOf(t).start == Start(s.rrTail, |s.splits|)
  {
  }

  /** The call a running push belongs to: its argument, and the position it started from. */
  lemma {:induction false} PushCall<T>(ss: seq<State<T>>, acts: seq<Action<T>>, j: nat, t: Tid) returns (b: nat)
    requires Run(ss, acts) && j < |ss| && ss[j].PcOf(t).Pushing?
    ensures PushingSince(ss, acts, b, j, t) && acts[b] == Action(t, BeginPush(ss[j].PcOf(t).v))
    ensures |ss[0].splits| > 0 && ss[j].PcOf(t).start == Start(ss[b].rrTail, |ss[0].splits|)
  {
    hide Next, Start;
    SameSplits(ss, acts, 0);
    if j > 0 {
      SameSplits(ss, acts, j - 1);
      assert Next(ss[j - 1], acts[j - 1]) == Some(ss[j]);
      PushStarts(ss[j - 1], acts[j - 1], ss[j], t);
      if ss[j - 1].PcOf(t).Pushing? {
        b := PushCall(ss, acts, j - 1, t);
      } else {
        b := j - 1;
      }
    }
  }

  /** What enters a split is the argument of the push that puts it there, and the split is the
      first that this push found with room, from its round-robin position. */
  lemma EntersItsArgument<T>(ss: seq<State<T>>, acts: seq<Action<T>>, j: nat) returns (b: nat, tries: nat)
    requires Run(ss, acts) && j < |acts| && Next(ss[j], acts[j]).Some? && Effect(ss[j], acts[j]).Enter?
    ensures var t, n, op := acts[j].tid, |ss[0].splits|, Effect(ss[j], acts[j]);
            && PushingSince(ss, acts, b, j, t) && acts[b] == Action(t, BeginPush(op.v))
            && tries < n && op.split == Visit(n, Start(ss[b].rrTail, n), tries)
            && forall i: nat :: i < tries ==> WasFull(ss, b, j, Visit(n, Start(ss[b].rrTail, n), i))
  {
    hide Start, WasFull;
    var t := acts[j].tid;
    SameSplits(ss, acts, j);
    b := PushCall(ss, acts, j, t);
    TriedWereFull(ss, acts, b, j, t);
    tries := ss[j].PcOf(t).tries;
  }

  function Pushes<T>(acts: seq<Action<T>>): nat {
    if acts == [] then 0 else Pushes(acts[..|acts| - 1]) + One(acts[|acts| - 1].event.BeginPush?)
  }

  function Pops<T>(acts: seq<Action<T>>): nat {
    if acts == [] then 0 else Pops(acts[..|acts| - 1]) + One(acts[|acts| - 1].event.BeginPop?)
  }

  lemma TurnFollows<T>(s: State<T>, a: Action<T>, s': State<T>)
    requires Next(s, a) == Some(s')
    ensures s'.rrTail == s.rrTail + One(a.event.BeginPush?)
    ensures s'.rrHead == s.rrHead + One(a.event.BeginPop?)
  {
  }

  /** The round-robin positions count the pushes and the pops called so far, whichever threads
      called them. */
  lemma {:induction false} TurnsCountCalls<T>(ss: seq<State<T>>, acts: seq<Action<T>>, i: nat)
    requires Run(ss, acts) && i < |ss|
    ensures ss[i].rrTail == Pushes(acts[..i]) && ss[i].rrHead == Pops(acts[..i])
  {
    hide Next;
    if i > 0 {
      TurnsCountCalls(ss, acts, i - 1);
      assert acts[..i][..i - 1] == acts[..i - 1];
      assert Next(ss[i - 1], acts[i - 1]) == Some(ss[i]);
      TurnFollows(ss[i - 1], acts[i - 1], ss[i]);
    }
  }

  lemma PopTriesMove<T>(s: State<T>, a: Action<T>, s': State<T>, t: Tid)
    requires Next(s, a) == Some(s') && s.PcOf(t).Popping? && s'.PcOf(t).Popping?
    requires s.PcOf(t).start < |s.splits|
    ensures s'.PcOf(t).start == s.PcOf(t).start
    ensures s'.PcOf(t).tries == s.PcOf(t).tries
            || (s'.PcOf(t).tries == s.PcOf(t).tries + 1 && s.PcOf(t).tries < |s.splits|
                && |s.splits[Visit(|s.splits|, s.PcOf(t).start, s.PcOf(t).tries)]| == 0)
  {
  }

  lemma {:induction false} TriedWereEmpty<T>(ss: seq<State<T>>, acts: seq<Action<T>>, b: nat, j: nat, t: Tid)
    requires Run(ss, acts) && PoppingSince(ss, acts, b, j, t)
    ensures ss[j].PcOf(t).start < |ss[0].splits| && ss[j].PcOf(t).tries <= |ss[0].splits|
    ensures forall i: nat :: i < ss[j].PcOf(t).tries ==> WasEmpty(ss, b, j, Visit(|ss[0].splits|, ss[j].PcOf(t).start, i))
    decreases j
  {
    hide Next, WasEmpty;
    var n := |ss[0].splits|;
    SameSplits(ss, acts, j);
    SameSplits(ss, acts, j - 1);
    assert Next(ss[j - 1], acts[j - 1]) == Some(ss[j]);
    if j == b + 1 {
      BeginsAtZero(ss[b], acts[b], ss[j]);
    } else {
      TriedWereEmpty(ss, acts, b, j - 1, t);
      PopTriesMove(ss[j - 1], acts[j - 1], ss[j], t);
      forall i: nat | i < ss[j].PcOf(t).tries
        ensures WasEmpty(ss, b, j, Visit(n, ss[j].PcOf(t).start, i))
      {
        var k := Visit(n, ss[j].PcOf(t).start, i);
        if i < ss[j - 1].PcOf(t).tries {
          EmptyStays(ss, b, j - 1, k);
        } else {
          EmptyNow(ss, b, j, j - 1, k);
        }
      }
    }
  }

  lemma PopStarts<T>(s: State<T>, a: Action<T>, s': State<T>, t: Tid)
    requires Next(s, a) == Some(s') && s'.PcOf(t).Popping?
    ensures |s.splits| > 0
    ensures if s.PcOf(t).Popping? then s'.PcOf(t).start == s.PcOf(t).start
            else a == Action(t, BeginPop) && s'.PcOf(t).start == Start(s.rrHead, |s.splits|)
  {
  }

  lemma {:induction false} PopCall<T>(ss: seq<State<T>>, acts: seq<Action<T>>, j: nat, t: Tid) returns (b: nat)
    requires Run(ss, acts) && j < |ss| && ss[j].PcOf(t).Popping?
    ensures PoppingSince(ss, acts, b, j, t)
    ensures |ss[0].splits| > 0 && ss[j].PcOf(t).start == Start(ss[b].rrHead, |ss[0].splits|)
  {
    hide Next, Start;
    SameSplits(ss, acts, 0);
    if j > 0 {
      SameSplits(ss, acts, j - 1);
      assert Next(ss[j - 1], acts[j - 1]) == Some(ss[j]);
      PopStarts(ss[j - 1], acts[j - 1], ss[j], t);
      if ss[j - 1].PcOf(t).Popping? {
        b := PopCall(ss, acts, j - 1, t);
      } else {
        b := j - 1;
      }
    }
  }

  /** What a pop takes is the oldest of the first split that it found with an element, from its
      round-robin position. */
  lemma LeavesTheFirstFound<T>(ss: seq<State<T>>, acts: seq<Action<T>>, j: nat) returns (b: nat, tries: nat)
    requires Run(ss, acts) && j < |acts| && Next(ss[j], acts[j]).Some? && Effect(ss[j], acts[j]).Leave?
    ensures var t, n, op := acts[j].tid, |ss[0].splits|, Effect(ss[j], acts[j]);
            && PoppingSince(ss, acts, b, j, t)
            && tries < n && op.split == Visit(n, Start(ss[b].rrHead, n), tries)
            && op.split < |ss[j].splits| && ss[j].splits[op.split] != [] && op.v == ss[j].splits[op.split][0]
            && forall i: nat :: i < tries ==> WasEmpty(ss, b, j, Visit(n, Start(ss[b].rrHead, n), i))
  {
    hide Start, WasEmpty;
    var t := acts[j].tid;
    SameSplits(ss, acts, j);
    b := PopCall(ss, acts, j, t);
    TriedWereEmpty(ss, acts, b, j, t);
    tries := ss[j].PcOf(t).tries;
  }

  lemma EmptyStays<T>(ss: seq<State<T>>, b: nat, j: nat, k: nat)
    requires WasEmpty(ss, b, j, k) && j + 1 < |ss|
    ensures WasEmpty(ss, b, j + 1, k)
  {
  }

  lemma EmptyNow<T>(ss: seq<State<T>>, b: nat, j: nat, m: nat, k: nat)
    requires b < m <= j < |ss| && k < |ss[m].splits| && |ss[m].splits[k]| == 0
    ensures WasEmpty(ss, b, j, k)
  {
  }

  /** A pop that gives up has found every split empty, each at some moment of the call. */
  lemma GivenUpPopSawAllEmpty<T>(ss: seq<State<T>>, acts: seq<Action<T>>, b: nat, j: nat, t: Tid, k: nat)
    requires Run(ss, acts) && PoppingSince(ss, acts, b, j, t) && j < |acts|
    requires acts[j] == Action(t, GiveUpPop) && k < |ss[0].splits|
    ensures WasEmpty(ss, b, j, k)
  {
    hide WasEmpty;
    SameSplits(ss, acts, j);
    assert Next(ss[j], acts[j]) == Some(ss[j + 1]);
    TriedWereEmpty(ss, acts, b, j, t);
    var i := RoundVisitsAll(|ss[0].splits|, ss[j].PcOf(t).start, k);
  }
}
