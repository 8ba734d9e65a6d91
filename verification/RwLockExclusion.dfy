/** Exactly when the reader-writer lock can let a reader and a writer in together. */
module RwLockExclusion {
  import opened Wrappers
  import opened Threads
  import opened RwLock

  /** In every run, every thread has found the mode it relies on up to here if and only if no
      reset has hit a thread that relied on the mode. */
  lemma {:induction false} CoherentExactly(ss: seq<State>, acts: seq<Action>, i: nat)
    requires Run(ss, acts) && i < |ss|
    ensures (forall k | 0 <= k <= i :: Coherent(ss[k])) <==> (forall j | 0 <= j < i :: !ResetsUnderSomeone(ss[j], acts[j]))
  {
    hide Coherent, ResetsUnderSomeone, Next;
    if i == 0 {
      StartIsFine();
    } else {
      CoherentExactly(ss, acts, i - 1);
      Reachable(ss, acts, i - 1);
      assert Next(ss[i - 1], acts[i - 1]) == Some(ss[i]);
      if Coherent(ss[i - 1]) {
        OnlyStaleResetsBreak(ss[i - 1], acts[i - 1], ss[i]);
      }
    }
  }

  lemma StartIsFine()
    ensures Inv(START) && Coherent(START) && Safe(START)
  {
  }

  // ---- whose turn it is ------------------------------------------------------------

  /** The lowest ticket that is not on its way out. */
  ghost function NextTurn(s: State): nat {
    s.curWriter + One(exists t :: s.PcOf(t).Leaving?)
  }

  function TicketOf(pc: Pc): nat
    requires ReliesOnWrite(pc)
  {
    if pc.Writing? || pc.Checking? then pc.ticket else pc.role.ticket
  }

  /** A writer that relies on kWrite and needs nobody else to get in. */
  ghost predicate HasTurn(s: State, t: Tid) {
    ReliesOnWrite(s.PcOf(t)) && TicketOf(s.PcOf(t)) <= NextTurn(s)
  }

  /** Readers, and the writer whose turn it is, find the mode they rely on. */
  ghost predicate Safe(s: State) {
    forall t :: (ReliesOnRead(s.PcOf(t)) ==> s.mode == ReadMode) && (HasTurn(s, t) ==> s.mode == WriteMode)
  }

  /** A reset that takes the mode away from one of these. */
  ghost predicate Harmful(s: State, a: Action) {
    Resets(s, a) && exists t :: ReliesOnRead(s.PcOf(t)) || HasTurn(s, t)
  }

  lemma HarmfulIsUnderSomeone(s: State, a: Action)
    requires Harmful(s, a)
    ensures ResetsUnderSomeone(s, a)
  {
  }

  lemma TurnMoves(s: State, a: Action, s': State)
    requires Tickets(s) && Next(s, a) == Some(s')
    ensures NextTurn(s') == NextTurn(s) + One(a.event.WriteUncount?)
  {
    OthersStay(s, a, s');
    var t := a.tid;
    if a.event.WriteUncount? {
      assert Holds(s, t, s.curWriter);
      forall u ensures !s.PcOf(u).Leaving? {
        assert s.PcOf(u).Leaving? ==> Holds(s, u, s.curWriter);
      }
      assert s'.PcOf(t).Leaving?;
    } else if a.event.PassTurn? {
      assert s.PcOf(t).Leaving?;
      assert Holds(s, t, s.curWriter);
      forall u ensures !s'.PcOf(u).Leaving? {
        assert s.PcOf(u).Leaving? ==> Holds(s, u, s.curWriter);
      }
    } else {
      assert !s.PcOf(t).Leaving? && !s'.PcOf(t).Leaving?;
      assert forall u :: s.PcOf(u).Leaving? <==> s'.PcOf(u).Leaving?;
    }
  }

  /** When a writer is inside and leaves, the mode is still the writers'. */
  lemma InsideHasTurn(s: State, t: Tid)
    requires Tickets(s) && s.PcOf(t).Writing?
    ensures HasTurn(s, t)
  {
    assert Holds(s, t, s.curWriter);
  }

  lemma SafeExcludes(s: State, t: Tid, u: Tid)
    requires Inv(s) && Safe(s)
    ensures !(s.PcOf(t).Reading? && s.PcOf(u).Writing?)
  {
    if s.PcOf(u).Writing? { InsideHasTurn(s, u); }
  }

  lemma HarmBreaksSafety(s: State, a: Action, s': State)
    requires Tickets(s) && Next(s, a) == Some(s') && Harmful(s, a)
    ensures !Safe(s')
  {
    OthersStay(s, a, s');
    TurnMoves(s, a, s');
    hide NextTurn;
    var u :| ReliesOnRead(s.PcOf(u)) || HasTurn(s, u);
    assert u != a.tid && s'.PcOf(u) == s.PcOf(u) && s'.mode == NoMode;
    assert ReliesOnRead(s'.PcOf(u)) || HasTurn(s', u);
  }

  lemma OtherStaysSafe(s: State, a: Action, s': State, u: Tid)
    requires Tickets(s) && Safe(s) && Next(s, a) == Some(s') && !Harmful(s, a) && u != a.tid
    ensures ReliesOnRead(s'.PcOf(u)) ==> s'.mode == ReadMode
    ensures HasTurn(s', u) ==> s'.mode == WriteMode
  {
    OthersStay(s, a, s');
    TurnMoves(s, a, s');
    hide NextTurn;
    assert s'.PcOf(u) == s.PcOf(u);
    assert (ReliesOnRead(s.PcOf(u)) ==> s.mode == ReadMode) && (HasTurn(s, u) ==> s.mode == WriteMode);
    if a.event.WriteUncount? {
      InsideHasTurn(s, a.tid);
    } else {
      assert HasTurn(s', u) ==> HasTurn(s, u);
    }
  }

  lemma SelfStaysSafe(s: State, a: Action, s': State)
    requires Inv(s) && Safe(s) && Next(s, a) == Some(s')
    ensures ReliesOnRead(s'.PcOf(a.tid)) ==> s'.mode == ReadMode
    ensures HasTurn(s', a.tid) ==> s'.mode == WriteMode
  {
    TurnMoves(s, a, s');
    hide NextTurn, Tickets, Counted;
    var t := a.tid;
    assert (ReliesOnRead(s.PcOf(t)) ==> s.mode == ReadMode) && (HasTurn(s, t) ==> s.mode == WriteMode);
  }

  /** Safety is lost at a harmful reset and nowhere else. */
  lemma SafeStep(s: State, a: Action, s': State)
    requires Inv(s) && Safe(s) && Next(s, a) == Some(s')
    ensures Safe(s') <==> !Harmful(s, a)
  {
    if Harmful(s, a) {
      HarmBreaksSafety(s, a, s');
    } else {
      hide Harmful, HasTurn, Next, Tickets, Counted;
      forall u
        ensures ReliesOnRead(s'.PcOf(u)) ==> s'.mode == ReadMode
        ensures HasTurn(s', u) ==> s'.mode == WriteMode
      {
        if u == a.tid { SelfStaysSafe(s, a, s'); } else { OtherStaysSafe(s, a, s', u); }
      }
    }
  }

  // ---- continuations -----------------------------------------------------------------

  function Exec(s: State, p: seq<Action>): Option<State>
    decreases |p|
  {
    if p == [] then Some(s)
    else match Next(s, p[0])
      case None => None
      case Some(s') => Exec(s', p[1..])
  }

  /** No reset of the mode succeeds. */
  predicate Quiet(p: seq<Action>) {
    forall i :: 0 <= i < |p| ==> p[i].event != Reset(true)
  }

  predicate BothInside(s: State, t: Tid, u: Tid) {
    s.PcOf(t).Reading? && s.PcOf(u).Writing?
  }

  /** The damage is done: a reader and a writer can get inside together with no further reset. */
  ghost predicate Breakable(s: State) {
    exists p, t, u :: Quiet(p) && Exec(s, p).Some? && BothInside(Exec(s, p).value, t, u)
  }

  lemma InvStep(s: State, a: Action, s': State)
    requires Inv(s) && Next(s, a) == Some(s')
    ensures Inv(s')
  {
    CountedStep(s, a, s');
    TicketsStep(s, a, s');
    ResetsOtherStep(s, a, s');
  }

  lemma {:induction false} ExecStaysSafe(s: State, p: seq<Action>)
    requires Inv(s) && Safe(s) && Quiet(p) && Exec(s, p).Some?
    ensures Inv(Exec(s, p).value) && Safe(Exec(s, p).value)
    decreases |p|
  {
    hide Inv, Safe, Next;
    if p != [] {
      var s' := Next(s, p[0]).value;
      InvStep(s, p[0], s');
      SafeStep(s, p[0], s');
      ExecStaysSafe(s', p[1..]);
    }
  }

  lemma SafeIsUnbreakable(s: State)
    requires Inv(s) && Safe(s)
    ensures !Breakable(s)
  {
    hide Inv, Safe;
    forall p, t, u | Quiet(p) && Exec(s, p).Some?
      ensures !BothInside(Exec(s, p).value, t, u)
    {
      ExecStaysSafe(s, p);
      SafeExcludes(Exec(s, p).value, t, u);
    }
  }

  /** p leads from s to s' quietly. */
  ghost predicate Leads(s: State, p: seq<Action>, s': State) {
    Quiet(p) && Exec(s, p) == Some(s')
  }

  lemma StandStill(s: State)
    ensures Leads(s, [], s)
  {
  }

  lemma Before(s: State, a: Action, s1: State, p: seq<Action>, s': State)
    requires Next(s, a) == Some(s1) && a.event != Reset(true) && Leads(s1, p, s')
    ensures Leads(s, [a] + p, s')
  {
    assert ([a] + p)[1..] == p;
  }

  lemma {:induction false} Chained(s: State, p: seq<Action>, s1: State, q: seq<Action>, s2: State)
    requires Leads(s, p, s1) && Leads(s1, q, s2)
    ensures Leads(s, p + q, s2)
    decreases |p|
  {
    hide Next;
    if p == [] {
      assert p + q == q;
    } else {
      var n := Next(s, p[0]).value;
      Chained(n, p[1..], s1, q, s2);
      assert p + q == [p[0]] + (p[1..] + q);
      Before(s, p[0], n, p[1..] + q, s2);
    }
  }

  /** s' is s but for the program counter of t, which is pc. */
  ghost predicate Moved(s: State, t: Tid, pc: Pc, s': State) {
    s'.PcOf(t) == pc && s'.(pcs := map[]) == s.(pcs := map[]) && forall u :: u != t ==> s'.PcOf(u) == s.PcOf(u)
  }

  /** A reader that relies on kRead gets in on its own, whatever the mode is by now. */
  lemma ReaderGetsIn(s: State, t: Tid) returns (p: seq<Action>, s': State)
    requires ReliesOnRead(s.PcOf(t)) && s.readers > 0
    ensures Leads(s, p, s') && Moved(s, t, Reading, s')
    decreases if s.PcOf(t).SawMode? then 3 else if s.PcOf(t).SawReaders? then 2 else if s.PcOf(t).Updated? then 1 else 0
  {
    hide Leads;
    var pc := s.PcOf(t);
    if pc.Reading? {
      StandStill(s);
      p, s' := [], s;
    } else {
      var a := Action(t, if pc.SawMode? then LoadReaders else if pc.SawReaders? then LoadWriters else ReadEnter);
      var s1 := Next(s, a).value;
      p, s' := ReaderGetsIn(s1, t);
      Before(s, a, s1, p, s');
      p := [a] + p;
    }
  }

  /** A writer that relies on kWrite and holds the lowest ticket gets in on its own. */
  lemma WriterGetsIn(s: State, t: Tid) returns (p: seq<Action>, s': State)
    requires ReliesOnWrite(s.PcOf(t)) && TicketOf(s.PcOf(t)) == s.curWriter && s.writers > 0
    ensures Leads(s, p, s') && Moved(s, t, Writing(s.curWriter), s')
    decreases if s.PcOf(t).SawMode? then 3 else if s.PcOf(t).SawReaders? then 2 else if s.PcOf(t).Writing? then 0 else 1
  {
    hide Leads;
    var pc := s.PcOf(t);
    if pc.Writing? {
      StandStill(s);
      p, s' := [], s;
    } else {
      var a := Action(t, if pc.SawMode? then LoadReaders else if pc.SawReaders? then LoadWriters else LoadCurWriter);
      var s1 := Next(s, a).value;
      p, s' := WriterGetsIn(s1, t);
      Before(s, a, s1, p, s');
      p := [a] + p;
    }
  }

  /** Only t has moved, perhaps with the mode. */
  ghost predicate OnlyMoved(s: State, t: Tid, s': State) {
    && s'.readers == s.readers && s'.writers == s.writers
    && s'.curWriter == s.curWriter && s'.ticket == s.ticket
    && forall u :: u != t ==> s'.PcOf(u) == s.PcOf(u)
  }

  /** Where a writer stands that neither relies on kWrite nor is leaving. */
  predicate Contends(pc: Pc) {
    || pc.Claimed?
    || (pc.Loop? && pc.role.Writer?)
    || (pc.Resetting? && pc.role.Writer? && pc.mode == ReadMode)
    || ((pc.SawMode? || pc.SawReaders? || pc.Updated?) && pc.role.Writer? && pc.mode != WriteMode)
  }

  function StepsToClaim(pc: Pc): nat
    requires Contends(pc)
  {
    if pc.Loop? then 3
    else if pc.Resetting? then 1
    else if pc.Claimed? then 4
    else (if pc.mode == NoMode then 0 else 4) + if pc.SawMode? then 2 else if pc.SawReaders? then 1 else 0
  }

  /** The step of a contender towards its claim, while the mode is kNone. */
  function TowardsClaim(pc: Pc): Event
    requires Contends(pc)
  {
    if pc.Loop? then LoadMode
    else if pc.Resetting? then Reset(false)
    else if pc.Claimed? then Reload
    else if pc.SawMode? then LoadReaders
    else if pc.SawReaders? then LoadWriters
    else Spin
  }

  lemma ContenderSteps(s: State, t: Tid) returns (s1: State)
    requires s.mode == NoMode && s.readers > 0 && Contends(s.PcOf(t)) && StepsToClaim(s.PcOf(t)) > 0
    ensures Next(s, Action(t, TowardsClaim(s.PcOf(t)))) == Some(s1)
    ensures s1.mode == NoMode && OnlyMoved(s, t, s1)
    ensures Contends(s1.PcOf(t)) && StepsToClaim(s1.PcOf(t)) < StepsToClaim(s.PcOf(t))
    ensures forall k :: Holds(s, t, k) <==> Holds(s1, t, k)
  {
    s1 := Next(s, Action(t, TowardsClaim(s.PcOf(t)))).value;
  }

  /** With the mode at kNone the owner of the lowest ticket claims it and gets in, unless it
      gave up at once: it needs no other thread. */
  lemma ContenderGetsIn(s: State, t: Tid) returns (p: seq<Action>, s': State)
    requires s.mode == NoMode && s.readers > 0 && s.writers > 0
    requires Contends(s.PcOf(t)) && Holds(s, t, s.curWriter)
    ensures Leads(s, p, s') && OnlyMoved(s, t, s') && s'.PcOf(t).Writing?
    decreases StepsToClaim(s.PcOf(t))
  {
    var pc := s.PcOf(t);
    if StepsToClaim(pc) == 0 {
      p, s' := ClaimGetsIn(s, t);
    } else {
      var s1 := ContenderSteps(s, t);
      hide Leads, Contends, StepsToClaim, Next, Holds;
      p, s' := ContenderGetsIn(s1, t);
      Before(s, Action(t, TowardsClaim(pc)), s1, p, s');
      p := [Action(t, TowardsClaim(pc))] + p;
    }
  }

  lemma ClaimGetsIn(s: State, t: Tid) returns (p: seq<Action>, s': State)
    requires s.mode == NoMode && s.writers > 0 && s.PcOf(t) == Updated(Writer(s.curWriter), NoMode)
    ensures Leads(s, p, s') && OnlyMoved(s, t, s') && s'.PcOf(t).Writing?
  {
    hide Leads;
    var s1 := Next(s, Action(t, WriteClaim(true))).value;
    var s2 := Next(s1, Action(t, Reload)).value;
    p, s' := WriterGetsIn(s2, t);
    Before(s1, Action(t, Reload), s2, p, s');
    Before(s, Action(t, WriteClaim(true)), s1, [Action(t, Reload)] + p, s');
    p := [Action(t, WriteClaim(true))] + ([Action(t, Reload)] + p);
  }

  /** With the mode at kNone a reader that starts over claims it and gets in. */
  lemma ReaderClaims(s: State, t: Tid) returns (p: seq<Action>, s': State)
    requires s.mode == NoMode && s.PcOf(t) == Updated(Reader, WriteMode)
    ensures Leads(s, p, s') && OnlyMoved(s, t, s') && s'.PcOf(t) == Reading
  {
    hide Leads;
    var s1 := Next(s, Action(t, Spin)).value;
    var s2 := Next(s1, Action(t, LoadMode)).value;
    var s3 := Next(s2, Action(t, LoadReaders)).value;
    var s4 := Next(s3, Action(t, LoadWriters)).value;
    s' := Next(s4, Action(t, ReadClaim(true))).value;
    StandStill(s');
    Before(s4, Action(t, ReadClaim(true)), s', [], s');
    p := [Action(t, ReadClaim(true))] + [];
    Before(s3, Action(t, LoadWriters), s4, p, s');
    p := [Action(t, LoadWriters)] + p;
    Before(s2, Action(t, LoadReaders), s3, p, s');
    p := [Action(t, LoadReaders)] + p;
    Before(s1, Action(t, LoadMode), s2, p, s');
    p := [Action(t, LoadMode)] + p;
    Before(s, Action(t, Spin), s1, p, s');
    p := [Action(t, Spin)] + p;
  }

  /** The writer that is leaving, if there is one, leaves; then the next turn has come. */
  lemma TurnIsPassed(s: State) returns (p: seq<Action>, s': State)
    requires Tickets(s)
    ensures Leads(s, p, s') && Tickets(s') && s'.curWriter == NextTurn(s)
    ensures s' == s.(pcs := s'.pcs, curWriter := s'.curWriter)
    ensures forall u :: if s.PcOf(u).Leaving? then s'.PcOf(u).Idle? else s'.PcOf(u) == s.PcOf(u)
  {
    hide Leads;
    StandStill(s);
    p, s' := [], s;
    if t :| s.PcOf(t).Leaving? {
      var a := Action(t, PassTurn);
      s' := Next(s, a).value;
      TicketsStep(s, a, s');
      assert Holds(s, t, s.curWriter);
      forall u | s.PcOf(u).Leaving? ensures u == t {
        assert Holds(s, u, s.curWriter);
      }
      StandStill(s');
      Before(s, a, s', [], s');
      p := [a] + [];
    }
  }

  // ---- a harmful reset is enough -------------------------------------------------------

  lemma {:induction false} LeadsKeepsInv(s: State, p: seq<Action>, s': State)
    requires Inv(s) && Leads(s, p, s')
    ensures Inv(s')
    decreases |p|
  {
    hide Inv, Next;
    if p != [] {
      InvStep(s, p[0], Next(s, p[0]).value);
      LeadsKeepsInv(Next(s, p[0]).value, p[1..], s');
    }
  }

  lemma BreaksBy(s: State, p: seq<Action>, s': State, t: Tid, u: Tid)
    requires Leads(s, p, s') && BothInside(s', t, u)
    ensures Breakable(s)
  {
  }

  lemma SameTurn(s: State, s': State)
    requires s'.curWriter == s.curWriter && forall t :: s.PcOf(t).Leaving? <==> s'.PcOf(t).Leaving?
    ensures NextTurn(s') == NextTurn(s)
  {
    if t :| s.PcOf(t).Leaving? { assert s'.PcOf(t).Leaving?; }
    if t :| s'.PcOf(t).Leaving? { assert s.PcOf(t).Leaving?; }
  }

  lemma ResetMoves(s: State, a: Action, s': State)
    requires Next(s, a) == Some(s') && Resets(s, a) && ResetsOther(s)
    ensures OnlyMoved(s, a.tid, s') && s'.mode == NoMode && !s.PcOf(a.tid).Leaving?
    ensures s'.PcOf(a.tid) == Updated(s.PcOf(a.tid).role, s.mode)
    ensures s.mode == WriteMode <==> s.PcOf(a.tid).role.Reader?
    ensures s.mode != NoMode
    ensures NextTurn(s') == NextTurn(s)
  {
    OthersStay(s, a, s');
    SameTurn(s, s');
  }

  /** The writer whose turn it is does not rely on kWrite, so it contends. */
  lemma TurnContends(s: State, u: Tid, k: nat)
    requires ResetsOther(s) && Holds(s, u, k) && k <= NextTurn(s) && !HasTurn(s, u) && !s.PcOf(u).Leaving?
    ensures Contends(s.PcOf(u))
  {
    hide NextTurn;
  }

  lemma RelyingAreCounted(s: State, t: Tid)
    requires Counted(s)
    ensures ReliesOnRead(s.PcOf(t)) ==> s.readers > 0
    ensures ReliesOnWrite(s.PcOf(t)) || Contends(s.PcOf(t)) ==> s.writers > 0
  {
    InsideIsCounted(s, t);
  }

  /** A writer's reset under a reader that relies on kRead: the reader gets in on what it saw,
      and the next writer claims the mode that was taken away. */
  lemma WriterResetBreaks(s: State, a: Action, s': State, t: Tid)
    requires Inv(s) && Safe(s) && Next(s, a) == Some(s') && Resets(s, a)
    requires s.mode == ReadMode && ReliesOnRead(s.PcOf(t))
    ensures Breakable(s')
  {
    ResetMoves(s, a, s');
    InvStep(s, a, s');
    RelyingAreCounted(s', t);
    var p1, s1 := ReaderGetsIn(s', t);
    LeadsKeepsInv(s', p1, s1);
    SameTurn(s', s1);
    var p2, s2 := TurnIsPassed(s1);
    LeadsKeepsInv(s1, p2, s2);
    var w, kw := a.tid, s.PcOf(a.tid).role.ticket;
    assert Holds(s2, w, kw);
    assert Owned(s2, s2.curWriter);
    var u :| Holds(s2, u, s2.curWriter);
    assert Contends(s2.PcOf(u)) by {
      if u != w {
        assert s2.PcOf(u) == s.PcOf(u) && Holds(s, u, s2.curWriter);
        TurnContends(s, u, s2.curWriter);
      }
    }
    RelyingAreCounted(s2, u);
    var p3, s3 := ContenderGetsIn(s2, u);
    hide Leads;
    Chained(s', p1, s1, p2, s2);
    Chained(s', p1 + p2, s2, p3, s3);
    BreaksBy(s', p1 + p2 + p3, s3, t, u);
  }

  /** A reader's reset under the writer whose turn it is: the reader claims the mode that was
      taken away, and the writer gets in on what it saw. */
  lemma ReaderResetBreaks(s: State, a: Action, s': State, v: Tid)
    requires Inv(s) && Safe(s) && Next(s, a) == Some(s') && Resets(s, a)
    requires s.mode == WriteMode && HasTurn(s, v)
    ensures Breakable(s')
  {
    ResetMoves(s, a, s');
    InvStep(s, a, s');
    var t := a.tid;
    var p1, s1 := ReaderClaims(s', t);
    LeadsKeepsInv(s', p1, s1);
    SameTurn(s', s1);
    var p2, s2 := TurnIsPassed(s1);
    LeadsKeepsInv(s1, p2, s2);
    assert s2.PcOf(v) == s.PcOf(v);
    assert Holds(s2, v, TicketOf(s2.PcOf(v)));
    RelyingAreCounted(s2, v);
    var p3, s3 := WriterGetsIn(s2, v);
    hide Leads;
    Chained(s', p1, s1, p2, s2);
    Chained(s', p1 + p2, s2, p3, s3);
    BreaksBy(s', p1 + p2 + p3, s3, t, v);
  }

  /** One step: from a safe state exclusion can be lost without a further reset exactly when
      the step is a harmful reset. */
  lemma OnlyHarmfulResetsBreak(s: State, a: Action, s': State)
    requires Inv(s) && Safe(s) && Next(s, a) == Some(s')
    ensures Breakable(s') <==> Harmful(s, a)
  {
    if Harmful(s, a) {
      var t :| ReliesOnRead(s.PcOf(t)) || HasTurn(s, t);
      if ReliesOnRead(s.PcOf(t)) {
        WriterResetBreaks(s, a, s', t);
      } else {
        ReaderResetBreaks(s, a, s', t);
      }
    } else {
      InvStep(s, a, s');
      SafeStep(s, a, s');
      SafeIsUnbreakable(s');
    }
  }

  // ---- whole runs ------------------------------------------------------------------------

  lemma {:induction false} HarmlessRunsAreSafe(ss: seq<State>, acts: seq<Action>, i: nat)
    requires Run(ss, acts) && i < |ss|
    requires forall j | 0 <= j < i :: !Harmful(ss[j], acts[j])
    ensures Inv(ss[i]) && Safe(ss[i])
  {
    hide Inv, Safe, Harmful, Next;
    if i == 0 {
      StartIsFine();
    } else {
      HarmlessRunsAreSafe(ss, acts, i - 1);
      assert Next(ss[i - 1], acts[i - 1]) == Some(ss[i]);
      InvStep(ss[i - 1], acts[i - 1], ss[i]);
      SafeStep(ss[i - 1], acts[i - 1], ss[i]);
    }
  }

  /** Whenever a reader and a writer are inside together, a harmful reset came before. */
  lemma BothInsideNeedsHarm(ss: seq<State>, acts: seq<Action>, i: nat, t: Tid, u: Tid) returns (j: nat)
    requires Run(ss, acts) && i < |ss| && BothInside(ss[i], t, u)
    ensures j < i && Harmful(ss[j], acts[j]) && ResetsUnderSomeone(ss[j], acts[j])
  {
    hide Harmful, Safe, Inv;
    if forall j | 0 <= j < i :: !Harmful(ss[j], acts[j]) {
      HarmlessRunsAreSafe(ss, acts, i);
      SafeExcludes(ss[i], t, u);
      assert false;
    }
    j :| j < i && Harmful(ss[j], acts[j]);
    HarmfulIsUnderSomeone(ss[j], acts[j]);
  }

  /** The exact condition, for every run: at some moment up to here a reader and a writer could
      get inside together without any further reset, if and only if some reset so far took the
      mode from a reader relying on it or from the writer whose turn it was. */
  lemma ExclusionExactly(ss: seq<State>, acts: seq<Action>, i: nat)
    requires Run(ss, acts) && i < |ss|
    ensures (exists k | 0 <= k <= i :: Breakable(ss[k])) <==> (exists j | 0 <= j < i :: Harmful(ss[j], acts[j]))
  {
    hide Harmful, Safe, Inv, Breakable, Next;
    if j :| 0 <= j < i && Harmful(ss[j], acts[j]) {
      var first := FirstHarm(ss, acts, j);
      HarmlessRunsAreSafe(ss, acts, first);
      assert Next(ss[first], acts[first]) == Some(ss[first + 1]);
      OnlyHarmfulResetsBreak(ss[first], acts[first], ss[first + 1]);
      assert Breakable(ss[first + 1]);
    } else {
      forall k | 0 <= k <= i ensures !Breakable(ss[k]) {
        HarmlessRunsAreSafe(ss, acts, k);
        SafeIsUnbreakable(ss[k]);
      }
    }
  }

  lemma {:induction false} FirstHarm(ss: seq<State>, acts: seq<Action>, j: nat) returns (first: nat)
    requires Run(ss, acts) && j < |acts| && Harmful(ss[j], acts[j])
    ensures first <= j && Harmful(ss[first], acts[first])
    ensures forall i | 0 <= i < first :: !Harmful(ss[i], acts[i])
  {
    hide Harmful;
    if i: nat :| i < j && Harmful(ss[i], acts[i]) {
      first := FirstHarm(ss, acts, i);
    } else {
      first := j;
    }
  }
}
