/** The reader-writer lock, one atomic load, store, compare-exchange or fetch_add a step.

    UpdateMode is kept as the source has it: a load of `mode_`, loads of the two counters
    and a compare-exchange, each its own step, and every compare-exchange is weak. */
module RwLock {
  import opened Wrappers
  import opened Threads

  datatype Mode = NoMode | WriteMode | ReadMode

  datatype Role = Reader | Writer(ticket: nat)

  /** `mode` fields are the caller's local copy of `mode_`. */
  datatype Pc =
    | Idle
    | Loop(role: Role)                     // about to call UpdateMode
    | SawMode(role: Role, mode: Mode)      // mode_ loaded, readers_ next
    | SawReaders(role: Role, mode: Mode)   // first disjunct false, writers_ next
    | Resetting(role: Role, mode: Mode)    // about to compare-exchange mode_ to kNone
    | Updated(role: Role, mode: Mode)      // UpdateMode has returned
    | Reading
    | WriteCounted                         // writers_ bumped, no ticket yet
    | Claimed(ticket: nat)                 // tried kNone -> kWrite, mode_ to be reloaded
    | Checking(ticket: nat)                // saw kWrite, cur_writer_ next
    | Writing(ticket: nat)
    | Leaving(ticket: nat)                 // writers_ decremented, cur_writer_ next

  datatype State = State(mode: Mode, readers: nat, writers: nat, curWriter: nat, ticket: nat,
                         pcs: map<Tid, Pc>) {
    function PcOf(t: Tid): Pc {
      if t in pcs then pcs[t] else Idle
    }

    function At(t: Tid, pc: Pc): State {
      this.(pcs := pcs[t := pc])
    }
  }

  /** `ok` says whether a weak compare-exchange takes its chance; it may fail spuriously. */
  datatype Event =
    | ReadCount | WriteCount | TakeTicket
    | LoadMode | LoadReaders | LoadWriters | Reset(ok: bool)
    | ReadEnter | ReadClaim(ok: bool) | WriteClaim(ok: bool) | Reload | LoadCurWriter | Spin
    | ReadUnlock | WriteUncount | PassTurn

  datatype Action = Action(tid: Tid, event: Event)

  const START := State(NoMode, 0, 0, 0, 0, map[])

  /** The state after thread `a.tid` takes the step `a`, when it is at that step. */
  function Next(s: State, a: Action): Option<State> {
    var t := a.tid;
    var pc := s.PcOf(t);
    match a.event
    // ReadLock, WriteLock: announce
    case ReadCount =>
      if pc.Idle? then Some(s.At(t, Loop(Reader)).(readers := s.readers + 1)) else None
    case WriteCount =>
      if pc.Idle? then Some(s.At(t, WriteCounted).(writers := s.writers + 1)) else None
    case TakeTicket =>
      if pc.WriteCounted? then Some(s.At(t, Loop(Writer(s.ticket))).(ticket := s.ticket + 1)) else None
    // UpdateMode
    case LoadMode =>
      if pc.Loop? then Some(s.At(t, SawMode(pc.role, s.mode))) else None
    case LoadReaders =>
      if !pc.SawMode? then None
      else if s.readers == 0 && pc.mode == ReadMode then Some(s.At(t, Resetting(pc.role, pc.mode)))
      else Some(s.At(t, SawReaders(pc.role, pc.mode)))
    case LoadWriters =>
      if !pc.SawReaders? then None
      else if s.writers == 0 && pc.mode == WriteMode then Some(s.At(t, Resetting(pc.role, pc.mode)))
      else Some(s.At(t, Updated(pc.role, pc.mode)))
    case Reset(ok) =>
      if !pc.Resetting? then None
      // success leaves the local copy alone, failure overwrites it with mode_
      else if ok && s.mode == pc.mode then Some(s.At(t, Updated(pc.role, pc.mode)).(mode := NoMode))
      else Some(s.At(t, Updated(pc.role, s.mode)))
    // ReadLock: after UpdateMode
    case ReadEnter =>
      if pc == Updated(Reader, ReadMode) then Some(s.At(t, Reading)) else None
    case ReadClaim(ok) =>
      if pc != Updated(Reader, NoMode) then None
      else if ok && s.mode == NoMode then Some(s.At(t, Reading).(mode := ReadMode))
      else Some(s.At(t, Loop(Reader)))
    // WriteLock: after UpdateMode
    case WriteClaim(ok) =>
      if !(pc.Updated? && pc.role.Writer? && pc.mode == NoMode) then None
      else if ok && s.mode == NoMode then Some(s.At(t, Claimed(pc.role.ticket)).(mode := WriteMode))
      else Some(s.At(t, Claimed(pc.role.ticket)))
    case Reload =>
      if !pc.Claimed? then None
      else if s.mode == WriteMode then Some(s.At(t, Checking(pc.ticket)))
      else Some(s.At(t, Loop(Writer(pc.ticket))))
    case LoadCurWriter =>
      var tkt := if pc.Checking? then pc.ticket else if pc.Updated? && pc.role.Writer? then pc.role.ticket else 0;
      if !(pc.Checking? || (pc.Updated? && pc.role.Writer? && pc.mode == WriteMode)) then None
      else if s.curWriter == tkt then Some(s.At(t, Writing(tkt)))
      else Some(s.At(t, Loop(Writer(tkt))))
    case Spin =>
      if pc.Updated? && ((pc.role.Reader? && pc.mode == WriteMode) || (pc.role.Writer? && pc.mode == ReadMode))
      then Some(s.At(t, Loop(pc.role))) else None
    // ReadUnlock, WriteUnlock
    case ReadUnlock =>
      if pc.Reading? && s.readers > 0 then Some(s.At(t, Idle).(readers := s.readers - 1)) else None
    case WriteUncount =>
      if pc.Writing? && s.writers > 0 then Some(s.At(t, Leaving(pc.ticket)).(writers := s.writers - 1)) else None
    case PassTurn =>
      if pc.Leaving? then Some(s.At(t, Idle).(curWriter := s.curWriter + 1)) else None
  }

  // ---- what every run keeps ------------------------------------------------------

  predicate IsReader(pc: Pc) {
    pc.Reading? ||
    ((pc.Loop? || pc.SawMode? || pc.SawReaders? || pc.Resetting? || pc.Updated?) && pc.role.Reader?)
  }

  /** Counted in writers_. */
  predicate IsWriter(pc: Pc) {
    pc.WriteCounted? || pc.Claimed? || pc.Checking? || pc.Writing? ||
    ((pc.Loop? || pc.SawMode? || pc.SawReaders? || pc.Resetting? || pc.Updated?) && pc.role.Writer?)
  }

  predicate Holds(s: State, t: Tid, k: int) {
    var pc := s.PcOf(t);
    || ((pc.Claimed? || pc.Checking? || pc.Writing? || pc.Leaving?) && pc.ticket == k)
    || ((pc.Loop? || pc.SawMode? || pc.SawReaders? || pc.Resetting? || pc.Updated?) && pc.role.Writer? && pc.role.ticket == k)
  }

  ghost predicate Owned(s: State, k: int) {
    exists t :: Holds(s, t, k)
  }

  /** The two counters count the threads they should, so neither ever underflows. */
  ghost predicate Counted(s: State) {
    s.readers == |Having(s.pcs, IsReader)| && s.writers == |Having(s.pcs, IsWriter)|
  }

  lemma InsideIsCounted(s: State, t: Tid)
    requires Counted(s)
    ensures IsReader(s.PcOf(t)) ==> s.readers > 0
    ensures IsWriter(s.PcOf(t)) ==> s.writers > 0
  {
    if t in s.pcs {
      if s.readers == 0 { HavingNone(s.pcs, IsReader, t); }
      if s.writers == 0 { HavingNone(s.pcs, IsWriter, t); }
    }
  }

  /** Outstanding writer tickets are [curWriter, ticket), one owner each, and a writer that
      is inside or on its way out owns curWriter. */
  ghost predicate Tickets(s: State) {
    && s.curWriter <= s.ticket
    && (forall k :: s.curWriter <= k < s.ticket ==> Owned(s, k))
    && (forall t, k :: Holds(s, t, k) ==> s.curWriter <= k < s.ticket)
    && (forall t, u, k :: Holds(s, t, k) && Holds(s, u, k) ==> t == u)
    && (forall t :: s.PcOf(t).Writing? || s.PcOf(t).Leaving? ==> Holds(s, t, s.curWriter))
  }

  /** A thread never resets the mode its own counter protects. */
  ghost predicate ResetsOther(s: State) {
    forall t :: s.PcOf(t).Resetting? ==>
      s.PcOf(t).mode == if s.PcOf(t).role.Reader? then WriteMode else ReadMode
  }

  ghost predicate Inv(s: State) {
    Counted(s) && Tickets(s) && ResetsOther(s)
  }

  lemma OthersStay(s: State, a: Action, s': State)
    requires Next(s, a) == Some(s')
    ensures s'.pcs == s.pcs[a.tid := s'.PcOf(a.tid)]
    ensures forall u :: u != a.tid ==> s'.PcOf(u) == s.PcOf(u)
  {
  }

  /** A thread is counted as a reader from ReadCount to ReadUnlock and as a writer from
      WriteCount to WriteUncount, and the counters move with it. */
  lemma CountersFollow(s: State, a: Action, s': State)
    requires Next(s, a) == Some(s')
    ensures IsReader(s'.PcOf(a.tid)) == (a.event.ReadCount? || (IsReader(s.PcOf(a.tid)) && !a.event.ReadUnlock?))
    ensures IsWriter(s'.PcOf(a.tid)) == (a.event.WriteCount? || (IsWriter(s.PcOf(a.tid)) && !a.event.WriteUncount?))
    ensures s'.readers + One(IsReader(s.PcOf(a.tid))) == s.readers + One(IsReader(s'.PcOf(a.tid)))
    ensures s'.writers + One(IsWriter(s.PcOf(a.tid))) == s.writers + One(IsWriter(s'.PcOf(a.tid)))
  {
  }

  lemma CountedStep(s: State, a: Action, s': State)
    requires Counted(s) && Next(s, a) == Some(s')
    ensures Counted(s')
  {
    OthersStay(s, a, s');
    CountersFollow(s, a, s');
    HavingAfterMove(s.pcs, a.tid, s'.PcOf(a.tid), IsReader);
    HavingAfterMove(s.pcs, a.tid, s'.PcOf(a.tid), IsWriter);
  }

  /** Tickets change hands in two places only: TakeTicket hands out the next one, and
      PassTurn lets go of the lowest. */
  lemma HoldersFollow(s: State, a: Action, s': State, u: Tid, k: int)
    requires Next(s, a) == Some(s')
    ensures Holds(s', u, k) <==>
              if u != a.tid then Holds(s, u, k)
              else (Holds(s, u, k) && !a.event.PassTurn?) || (a.event.TakeTicket? && k == s.ticket)
  {
    OthersStay(s, a, s');
  }

  lemma TurnsFollow(s: State, a: Action, s': State)
    requires Next(s, a) == Some(s')
    ensures s'.ticket == s.ticket + One(a.event.TakeTicket?)
    ensures s'.curWriter == s.curWriter + One(a.event.PassTurn?)
    ensures a.event.PassTurn? ==> s.PcOf(a.tid).Leaving?
  {
  }

  lemma OwnershipStep(s: State, a: Action, s': State, k: int)
    requires Tickets(s) && Next(s, a) == Some(s') && s'.curWriter <= k < s'.ticket
    ensures Owned(s', k)
  {
    hide Next, Holds;
    TurnsFollow(s, a, s');
    if a.event.TakeTicket? && k == s.ticket {
      HoldersFollow(s, a, s', a.tid, k);
    } else {
      assert Owned(s, k);
      var u :| Holds(s, u, k);
      HoldersFollow(s, a, s', u, k);
      if a.event.PassTurn? {
        assert Holds(s, a.tid, s.curWriter);
        LowestTicket(s, a.tid, k);
      }
    }
  }

  lemma LowestTicket(s: State, t: Tid, k: int)
    requires Tickets(s) && s.PcOf(t).Leaving? && k != s.curWriter
    ensures !Holds(s, t, k)
  {
    assert Holds(s, t, s.curWriter);
  }

  lemma BoundsStep(s: State, a: Action, s': State, u: Tid, k: int)
    requires Tickets(s) && Next(s, a) == Some(s') && Holds(s', u, k)
    ensures s'.curWriter <= k < s'.ticket
    ensures Holds(s, u, k) || (a.event.TakeTicket? && u == a.tid && k == s.ticket)
  {
    hide Next, Holds;
    TurnsFollow(s, a, s');
    HoldersFollow(s, a, s', u, k);
    if a.event.PassTurn? {
      assert Holds(s, a.tid, s.curWriter);
    }
  }

  lemma TurnStep(s: State, a: Action, s': State, u: Tid)
    requires Tickets(s) && Next(s, a) == Some(s') && (s'.PcOf(u).Writing? || s'.PcOf(u).Leaving?)
    ensures Holds(s', u, s'.curWriter)
  {
    OthersStay(s, a, s');
    assert s.PcOf(a.tid).Leaving? ==> Holds(s, a.tid, s.curWriter);
    assert s.PcOf(u).Writing? || s.PcOf(u).Leaving? ==> Holds(s, u, s.curWriter);
  }

  lemma TicketsStep(s: State, a: Action, s': State)
    requires Tickets(s) && Next(s, a) == Some(s')
    ensures Tickets(s')
  {
    hide Next, Holds, Owned;
    TurnsFollow(s, a, s');
    forall k | s'.curWriter <= k < s'.ticket ensures Owned(s', k) {
      OwnershipStep(s, a, s', k);
    }
    forall u, k | Holds(s', u, k)
      ensures s'.curWriter <= k < s'.ticket
      ensures Holds(s, u, k) || (a.event.TakeTicket? && u == a.tid && k == s.ticket)
    {
      BoundsStep(s, a, s', u, k);
    }
    forall u | s'.PcOf(u).Writing? || s'.PcOf(u).Leaving? ensures Holds(s', u, s'.curWriter) {
      TurnStep(s, a, s', u);
    }
    if a.event.PassTurn? {
      LeavingIsOutstanding(s, a.tid);
    }
  }

  lemma LeavingIsOutstanding(s: State, t: Tid)
    requires Tickets(s) && s.PcOf(t).Leaving?
    ensures s.curWriter < s.ticket
  {
    assert Holds(s, t, s.curWriter);
  }

  lemma ResetsOtherStep(s: State, a: Action, s': State)
    requires Counted(s) && ResetsOther(s) && Next(s, a) == Some(s')
    ensures ResetsOther(s')
  {
    OthersStay(s, a, s');
    InsideIsCounted(s, a.tid);
  }

  // ---- runs ----------------------------------------------------------------------

  ghost predicate Run(ss: seq<State>, acts: seq<Action>) {
    && |ss| == |acts| + 1
    && ss[0] == START
    && forall i | 0 <= i < |acts| :: Next(ss[i], acts[i]) == Some(ss[i + 1])
  }

  lemma {:induction false} Reachable(ss: seq<State>, acts: seq<Action>, i: nat)
    requires Run(ss, acts) && i < |ss|
    ensures Inv(ss[i])
  {
    if i > 0 {
      Reachable(ss, acts, i - 1);
      assert Next(ss[i - 1], acts[i - 1]) == Some(ss[i]);
      CountedStep(ss[i - 1], acts[i - 1], ss[i]);
      TicketsStep(ss[i - 1], acts[i - 1], ss[i]);
      ResetsOtherStep(ss[i - 1], acts[i - 1], ss[i]);
    }
  }

  /** At most one writer is inside, in every interleaving of single atomic operations, and
      it owns the lowest outstanding ticket: writers go strictly in ticket order. */
  lemma OneWriterInTicketOrder(ss: seq<State>, acts: seq<Action>, i: nat, t: Tid, u: Tid, k: int)
    requires Run(ss, acts) && i < |ss|
    requires ss[i].PcOf(t).Writing?
    ensures ss[i].PcOf(u).Writing? ==> u == t
    ensures Holds(ss[i], u, k) && u != t ==> k > ss[i].PcOf(t).ticket
  {
    Reachable(ss, acts, i);
    var c := ss[i].curWriter;
    assert Holds(ss[i], t, c);
    if ss[i].PcOf(u).Writing? {
      assert Holds(ss[i], u, c);
    }
  }

  /** Unlocking never takes a counter below zero: a reader or writer that is inside is
      counted, so both unlocks are always possible. */
  lemma UnlockNeverUnderflows(ss: seq<State>, acts: seq<Action>, i: nat, t: Tid)
    requires Run(ss, acts) && i < |ss|
    ensures ss[i].PcOf(t).Reading? ==> Next(ss[i], Action(t, ReadUnlock)).Some?
    ensures ss[i].PcOf(t).Writing? ==> Next(ss[i], Action(t, WriteUncount)).Some?
  {
    Reachable(ss, acts, i);
    InsideIsCounted(ss[i], t);
  }

  // ---- readers against writers ---------------------------------------------------

  /** The thread relies on `mode_` being kRead: it is inside, or will enter on what it saw. */
  predicate ReliesOnRead(pc: Pc) {
    pc.Reading? ||
    ((pc.SawMode? || pc.SawReaders? || pc.Updated?) && pc.role.Reader? && pc.mode == ReadMode)
  }

  predicate ReliesOnWrite(pc: Pc) {
    pc.Writing? || pc.Checking? ||
    ((pc.SawMode? || pc.SawReaders? || pc.Updated?) && pc.role.Writer? && pc.mode == WriteMode)
  }

  /** Every thread that relies on a mode finds `mode_` still there. */
  ghost predicate Coherent(s: State) {
    forall t :: (ReliesOnRead(s.PcOf(t)) ==> s.mode == ReadMode) && (ReliesOnWrite(s.PcOf(t)) ==> s.mode == WriteMode)
  }

  /** The step is a compare-exchange that does reset `mode_` to kNone. */
  predicate Resets(s: State, a: Action) {
    a.event.Reset? && a.event.ok && s.PcOf(a.tid).Resetting? && s.mode == s.PcOf(a.tid).mode
  }

  /** ... under a thread that relies on the mode it takes away. */
  ghost predicate ResetsUnderSomeone(s: State, a: Action) {
    && Resets(s, a)
    && exists t :: ReliesOnRead(s.PcOf(t)) || ReliesOnWrite(s.PcOf(t))
  }

  /** ... while the counter that justified it is still zero. */
  predicate Fresh(s: State, a: Action) {
    Resets(s, a) ==> if s.mode == ReadMode then s.readers == 0 else s.writers == 0
  }

  /** Exactly one kind of step can take a mode away from a thread that relies on it: a
      reset whose test has gone stale. */
  lemma OnlyStaleResetsBreak(s: State, a: Action, s': State)
    requires Inv(s) && Coherent(s) && Next(s, a) == Some(s')
    ensures Coherent(s') <==> !ResetsUnderSomeone(s, a)
  {
    if ResetsUnderSomeone(s, a) {
      StaleResetBreaks(s, a, s');
    } else {
      forall u
        ensures ReliesOnRead(s'.PcOf(u)) ==> s'.mode == ReadMode
        ensures ReliesOnWrite(s'.PcOf(u)) ==> s'.mode == WriteMode
      {
        if u == a.tid { OwnModeStays(s, a, s'); } else { OtherModeStays(s, a, s', u); }
      }
    }
  }

  lemma StaleResetBreaks(s: State, a: Action, s': State)
    requires Next(s, a) == Some(s') && ResetsUnderSomeone(s, a)
    ensures !Coherent(s')
  {
    OthersStay(s, a, s');
    var u :| ReliesOnRead(s.PcOf(u)) || ReliesOnWrite(s.PcOf(u));
    assert u != a.tid;
    assert s'.PcOf(u) == s.PcOf(u) && s'.mode == NoMode;
  }

  lemma OwnModeStays(s: State, a: Action, s': State)
    requires ResetsOther(s) && Coherent(s) && Next(s, a) == Some(s') && !ResetsUnderSomeone(s, a)
    ensures ReliesOnRead(s'.PcOf(a.tid)) ==> s'.mode == ReadMode
    ensures ReliesOnWrite(s'.PcOf(a.tid)) ==> s'.mode == WriteMode
  {
    assert (ReliesOnRead(s.PcOf(a.tid)) ==> s.mode == ReadMode) && (ReliesOnWrite(s.PcOf(a.tid)) ==> s.mode == WriteMode);
  }

  lemma OtherModeStays(s: State, a: Action, s': State, u: Tid)
    requires Coherent(s) && Next(s, a) == Some(s') && !ResetsUnderSomeone(s, a) && u != a.tid
    ensures ReliesOnRead(s'.PcOf(u)) ==> s'.mode == ReadMode
    ensures ReliesOnWrite(s'.PcOf(u)) ==> s'.mode == WriteMode
  {
    OthersStay(s, a, s');
    assert s'.PcOf(u) == s.PcOf(u);
    assert (ReliesOnRead(s.PcOf(u)) ==> s.mode == ReadMode) && (ReliesOnWrite(s.PcOf(u)) ==> s.mode == WriteMode);
  }

  lemma FreshIsNotUnderSomeone(s: State, a: Action)
    requires Inv(s) && Coherent(s) && Fresh(s, a)
    ensures !ResetsUnderSomeone(s, a)
  {
    forall t
      ensures ReliesOnRead(s.PcOf(t)) ==> s.readers > 0
      ensures ReliesOnWrite(s.PcOf(t)) ==> s.writers > 0
    {
      InsideIsCounted(s, t);
    }
  }

  lemma {:induction false} FreshRunsStayCoherent(ss: seq<State>, acts: seq<Action>, i: nat)
    requires Run(ss, acts) && i < |ss|
    requires forall j | 0 <= j < |acts| :: Fresh(ss[j], acts[j])
    ensures Coherent(ss[i])
  {
    if i > 0 {
      FreshRunsStayCoherent(ss, acts, i - 1);
      Reachable(ss, acts, i - 1);
      assert Next(ss[i - 1], acts[i - 1]) == Some(ss[i]);
      FreshIsNotUnderSomeone(ss[i - 1], acts[i - 1]);
      OnlyStaleResetsBreak(ss[i - 1], acts[i - 1], ss[i]);
    }
  }

  /** UpdateMode behaves as one step: a reset directly follows the counter load that
      justified it, with no other thread in between. */
  predicate Unsplit(acts: seq<Action>, j: nat)
    requires j < |acts|
  {
    acts[j].event.Reset? ==>
      j > 0 && acts[j - 1].tid == acts[j].tid && (acts[j - 1].event.LoadReaders? || acts[j - 1].event.LoadWriters?)
  }

  lemma UnsplitIsFresh(ss: seq<State>, acts: seq<Action>, j: nat)
    requires Run(ss, acts) && j < |acts| && Unsplit(acts, j)
    ensures Fresh(ss[j], acts[j])
  {
    if Resets(ss[j], acts[j]) {
      assert Next(ss[j - 1], acts[j - 1]) == Some(ss[j]);
    }
  }

  /** When UpdateMode is never split, no reader and writer are ever inside together. */
  lemma ReadersExcludeWriters(ss: seq<State>, acts: seq<Action>, i: nat, t: Tid, u: Tid)
    requires Run(ss, acts) && i < |ss|
    requires forall j | 0 <= j < |acts| :: Unsplit(acts, j)
    ensures !(ss[i].PcOf(t).Reading? && ss[i].PcOf(u).Writing?)
  {
    forall j | 0 <= j < |acts| ensures Fresh(ss[j], acts[j]) {
      UnsplitIsFresh(ss, acts, j);
    }
    FreshRunsStayCoherent(ss, acts, i);
  }

  const R: Tid := 0
  const W: Tid := 1

  /** A run that ends with these values, with R and W at these points. */
  ghost predicate EndsIn(ss: seq<State>, acts: seq<Action>, mode: Mode, readers: nat, writers: nat, ticket: nat,
                         pcR: Pc, pcW: Pc) {
    && Run(ss, acts)
    && ss[|acts|].(pcs := map[]) == State(mode, readers, writers, 0, ticket, map[])
    && ss[|acts|].PcOf(R) == pcR
    && ss[|acts|].PcOf(W) == pcW
  }

  lemma Push(ss: seq<State>, acts: seq<Action>, a: Action) returns (ss': seq<State>, acts': seq<Action>)
    requires Run(ss, acts) && Next(ss[|acts|], a).Some?
    ensures Run(ss', acts') && Some(ss'[|acts'|]) == Next(ss[|acts|], a)
  {
    ss', acts' := ss + [Next(ss[|acts|], a).value], acts + [a];
  }

  /** R enters and leaves, and kRead stays behind in `mode_`. */
  lemma ReaderLeavesReadMode() returns (ss: seq<State>, acts: seq<Action>)
    ensures EndsIn(ss, acts, ReadMode, 0, 0, 0, Idle, Idle)
  {
    ss, acts := [START], [];
    ss, acts := Push(ss, acts, Action(R, ReadCount));
    ss, acts := Push(ss, acts, Action(R, LoadMode));
    ss, acts := Push(ss, acts, Action(R, LoadReaders));
    ss, acts := Push(ss, acts, Action(R, LoadWriters));
    ss, acts := Push(ss, acts, Action(R, ReadClaim(true)));
    ss, acts := Push(ss, acts, Action(R, ReadUnlock));
  }

  /** W finds no readers and is about to reset the mode; R enters on the old mode. */
  lemma WriterGoesStale() returns (ss: seq<State>, acts: seq<Action>)
    ensures EndsIn(ss, acts, ReadMode, 1, 1, 1, Reading, Resetting(Writer(0), ReadMode))
  {
    ss, acts := ReaderLeavesReadMode();
    ss, acts := Push(ss, acts, Action(W, WriteCount));
    ss, acts := Push(ss, acts, Action(W, TakeTicket));
    ss, acts := Push(ss, acts, Action(W, LoadMode));
    ss, acts := Push(ss, acts, Action(W, LoadReaders));
    assert EndsIn(ss, acts, ReadMode, 0, 1, 1, Idle, Resetting(Writer(0), ReadMode));
    ss, acts := Push(ss, acts, Action(R, ReadCount));
    ss, acts := Push(ss, acts, Action(R, LoadMode));
    ss, acts := Push(ss, acts, Action(R, LoadReaders));
    ss, acts := Push(ss, acts, Action(R, LoadWriters));
    ss, acts := Push(ss, acts, Action(R, ReadEnter));
  }

  /** The guarantee does need UpdateMode unsplit: here W's reset takes effect only after R
      has entered, and both end up inside. */
  lemma SplitUpdateLetsBothIn() returns (ss: seq<State>, acts: seq<Action>)
    ensures Run(ss, acts)
    ensures ss[|acts|].PcOf(R).Reading? && ss[|acts|].PcOf(W).Writing?
  {
    ss, acts := WriterGoesStale();
    ss, acts := Push(ss, acts, Action(W, Reset(true)));
    ss, acts := Push(ss, acts, Action(W, Spin));
    ss, acts := Push(ss, acts, Action(W, LoadMode));
    ss, acts := Push(ss, acts, Action(W, LoadReaders));
    assert EndsIn(ss, acts, NoMode, 1, 1, 1, Reading, SawReaders(Writer(0), NoMode));
    ss, acts := Push(ss, acts, Action(W, LoadWriters));
    ss, acts := Push(ss, acts, Action(W, WriteClaim(true)));
    ss, acts := Push(ss, acts, Action(W, Reload));
    ss, acts := Push(ss, acts, Action(W, LoadCurWriter));
  }
}
