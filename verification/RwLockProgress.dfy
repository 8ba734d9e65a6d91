/** When the reader-writer lock lets a waiting thread in without anybody else moving. */
module RwLockProgress {
  import opened Wrappers
  import opened Threads
  import opened RwLock
  import opened RwLockExclusion

  /** Thread t alone takes the actions p from s to s'. */
  ghost predicate Solo(s: State, t: Tid, p: seq<Action>, s': State) {
    (forall i :: 0 <= i < |p| ==> p[i].tid == t) && Exec(s, p) == Some(s')
  }

  predicate IsInside(pc: Pc) {
    pc.Reading? || pc.Writing?
  }

  ghost predicate GetsInAlone(s: State, t: Tid) {
    exists p, s' :: Solo(s, t, p, s') && IsInside(s'.PcOf(t))
  }

  lemma SoloEnds(s: State, t: Tid)
    ensures Solo(s, t, [], s)
  {
  }

  lemma SoloStarts(s: State, t: Tid, e: Event, s1: State, p: seq<Action>, s': State)
    requires Next(s, Action(t, e)) == Some(s1) && Solo(s1, t, p, s')
    ensures Solo(s, t, [Action(t, e)] + p, s')
  {
    hide Next;
    assert ([Action(t, e)] + p)[1..] == p;
  }

  lemma InAlone(s: State, t: Tid, p: seq<Action>, s': State)
    requires Solo(s, t, p, s') && IsInside(s'.PcOf(t))
    ensures GetsInAlone(s, t)
  {
  }

  /** One step of t leaves everything else open. */
  lemma InAfterOne(s: State, t: Tid, e: Event, s1: State)
    requires Next(s, Action(t, e)) == Some(s1) && GetsInAlone(s1, t)
    ensures GetsInAlone(s, t)
  {
    hide Next, Solo;
    var p, s' :| Solo(s1, t, p, s') && IsInside(s'.PcOf(t));
    SoloStarts(s, t, e, s1, p, s');
    InAlone(s, t, [Action(t, e)] + p, s');
  }

  lemma InNow(s: State, t: Tid)
    requires IsInside(s.PcOf(t))
    ensures GetsInAlone(s, t)
  {
    SoloEnds(s, t);
  }

  // ---- what one round of UpdateMode does for a thread alone ------------------------------

  /** s with t at pc. */
  ghost predicate Stands(s: State, t: Tid, pc: Pc, s': State) {
    s'.PcOf(t) == pc && s'.(pcs := map[]) == s.(pcs := map[])
  }

  /** The loads of UpdateMode, from the loop of ReadLock or WriteLock. */
  lemma Looks(s: State, t: Tid, role: Role) returns (s': State)
    requires s.PcOf(t) == Loop(role)
    ensures Stands(s, t, if (s.readers == 0 && s.mode == ReadMode) || (s.writers == 0 && s.mode == WriteMode)
                         then Resetting(role, s.mode) else Updated(role, s.mode), s')
    ensures GetsInAlone(s', t) ==> GetsInAlone(s, t)
  {
    var s1 := s.At(t, SawMode(role, s.mode));
    if s.readers == 0 && s.mode == ReadMode {
      s' := s1.At(t, Resetting(role, s.mode));
      LooksOnce(s, t, role, s1, s');
    } else {
      var s2 := s1.At(t, SawReaders(role, s.mode));
      s' := s2.At(t, if s.writers == 0 && s.mode == WriteMode then Resetting(role, s.mode) else Updated(role, s.mode));
      LooksOnce(s, t, role, s1, s2);
      if GetsInAlone(s', t) { InAfterOne(s2, t, LoadWriters, s'); }
    }
    hide Next, GetsInAlone;
    if GetsInAlone(s', t) {
      if !(s.readers == 0 && s.mode == ReadMode) { InAfterOne(s1, t, LoadReaders, s1.At(t, SawReaders(role, s.mode))); }
      else { InAfterOne(s1, t, LoadReaders, s'); }
      InAfterOne(s, t, LoadMode, s1);
    }
  }

  lemma LooksOnce(s: State, t: Tid, role: Role, s1: State, s2: State)
    requires s.PcOf(t) == Loop(role) && s1 == s.At(t, SawMode(role, s.mode))
    requires s2 == s1.At(t, if s.readers == 0 && s.mode == ReadMode then Resetting(role, s.mode) else SawReaders(role, s.mode))
    ensures Next(s, Action(t, LoadMode)) == Some(s1) && Next(s1, Action(t, LoadReaders)) == Some(s2)
  {
  }

  /** A reset by t alone succeeds and leads back to the loop with the mode at kNone. */
  lemma ResetsAlone(s: State, t: Tid, role: Role) returns (s': State)
    requires s.PcOf(t) == Resetting(role, s.mode) && s.mode == if role.Reader? then WriteMode else ReadMode
    ensures Stands(s.(mode := NoMode), t, Loop(role), s')
    ensures GetsInAlone(s', t) ==> GetsInAlone(s, t)
  {
    var s1 := s.At(t, Updated(role, s.mode)).(mode := NoMode);
    s' := s1.At(t, Loop(role));
    assert Next(s, Action(t, Reset(true))) == Some(s1) && Next(s1, Action(t, Spin)) == Some(s');
    hide Next, GetsInAlone;
    if GetsInAlone(s', t) {
      InAfterOne(s1, t, Spin, s');
      InAfterOne(s, t, Reset(true), s1);
    }
  }

  // ---- readers ---------------------------------------------------------------------------

  /** A reader about to act on what UpdateMode returned gets in on kRead and on kNone. */
  lemma ReaderEnters(s: State, t: Tid)
    requires s.PcOf(t) == Updated(Reader, s.mode) && s.mode != WriteMode
    ensures GetsInAlone(s, t)
  {
    if s.mode == ReadMode {
      ReaderEntersOnRead(s, t);
    } else {
      var s' := s.At(t, Reading).(mode := ReadMode);
      InNow(s', t);
      InAfterOne(s, t, ReadClaim(true), s');
    }
  }

  lemma ReaderEntersOnRead(s: State, t: Tid)
    requires s.PcOf(t) == Updated(Reader, ReadMode)
    ensures GetsInAlone(s, t)
  {
    var s' := s.At(t, Reading);
    InNow(s', t);
    InAfterOne(s, t, ReadEnter, s');
  }

  lemma ReaderLooksAndEnters(s: State, t: Tid)
    requires s.PcOf(t) == Loop(Reader) && s.readers > 0 && (s.mode != WriteMode || s.writers == 0)
    ensures GetsInAlone(s, t)
  {
    hide Next, GetsInAlone;
    var s' := Looks(s, t, Reader);
    if s.mode == WriteMode {
      var s2 := ResetsAlone(s', t, Reader);
      var s3 := Looks(s2, t, Reader);
      ReaderEnters(s3, t);
    } else {
      ReaderEnters(s', t);
    }
  }

  /** A reader that is waiting, and neither remembers kRead nor is about to reset the mode. */
  predicate ReaderWaits(pc: Pc) {
    || pc == Loop(Reader)
    || ((pc.SawMode? || pc.SawReaders? || pc.Updated?) && pc.role.Reader? && pc.mode != ReadMode)
  }

  /** ... in front of a mode that writers hold. */
  predicate ReaderShutOut(s: State, t: Tid) {
    s.mode == WriteMode && s.writers > 0 && ReaderWaits(s.PcOf(t))
  }

  lemma ReaderStaysOut(s: State, a: Action, s': State)
    requires ReaderShutOut(s, a.tid) && Next(s, a) == Some(s')
    ensures ReaderShutOut(s', a.tid)
  {
  }

  lemma {:induction false} ReaderNeverGetsIn(s: State, t: Tid, p: seq<Action>, s': State)
    requires ReaderShutOut(s, t) && Solo(s, t, p, s')
    ensures ReaderShutOut(s', t)
    decreases |p|
  {
    hide Next, ReaderShutOut;
    if p != [] {
      var s1 := Next(s, p[0]).value;
      ReaderStaysOut(s, p[0], s1);
      assert Solo(s1, t, p[1..], s');
      ReaderNeverGetsIn(s1, t, p[1..], s');
    }
  }

  /** The step a waiting thread takes next, its exchanges succeeding when they can. */
  function OwnEvent(pc: Pc): Event {
    match pc
    case WriteCounted => TakeTicket
    case Loop(_) => LoadMode
    case SawMode(_, _) => LoadReaders
    case SawReaders(_, _) => LoadWriters
    case Resetting(_, _) => Reset(true)
    case Updated(Reader, ReadMode) => ReadEnter
    case Updated(Reader, NoMode) => ReadClaim(true)
    case Updated(Writer(_), NoMode) => WriteClaim(true)
    case Updated(Writer(_), WriteMode) => LoadCurWriter
    case Updated(_, _) => Spin
    case Claimed(_) => Reload
    case Checking(_) => LoadCurWriter
    case _ => Spin
  }

  /** Steps left, at most, before the thread is inside or back in its loop. */
  function Rank(pc: Pc): nat {
    match pc
    case SawMode(_, _) => 6
    case SawReaders(_, _) => 5
    case Resetting(_, _) => 4
    case Updated(_, _) => 3
    case Claimed(_) => 2
    case Checking(_) => 1
    case WriteCounted => 1
    case _ => 0
  }

  lemma OwnStep(s: State, t: Tid) returns (s1: State)
    requires (IsReader(s.PcOf(t)) || IsWriter(s.PcOf(t))) && !IsInside(s.PcOf(t)) && !s.PcOf(t).Loop?
    ensures Next(s, Action(t, OwnEvent(s.PcOf(t)))) == Some(s1)
    ensures IsInside(s1.PcOf(t)) || s1.PcOf(t).Loop? || Rank(s1.PcOf(t)) < Rank(s.PcOf(t))
    ensures IsReader(s1.PcOf(t)) == IsReader(s.PcOf(t)) && IsWriter(s1.PcOf(t)) == IsWriter(s.PcOf(t))
    ensures s1.readers == s.readers && s1.writers == s.writers && s1.curWriter == s.curWriter
  {
    s1 := Next(s, Action(t, OwnEvent(s.PcOf(t)))).value;
  }

  /** What a reader's own step leads to, when nobody shuts it out. */
  lemma ReaderStep(s: State, t: Tid, s1: State)
    requires IsReader(s.PcOf(t)) && !s.PcOf(t).Reading? && !s.PcOf(t).Loop? && s.readers > 0
    requires s.PcOf(t).Resetting? ==> s.PcOf(t).mode == WriteMode
    requires Next(s, Action(t, OwnEvent(s.PcOf(t)))) == Some(s1)
    requires s.mode != WriteMode || s.writers == 0 || ReliesOnRead(s.PcOf(t)) || s.PcOf(t).Resetting?
    ensures s1.mode != WriteMode || s1.writers == 0 || ReliesOnRead(s1.PcOf(t))
    ensures s1.PcOf(t).Resetting? ==> s1.PcOf(t).mode == WriteMode
  {
  }

  lemma ReaderGetsIn(s: State, t: Tid)
    requires IsReader(s.PcOf(t)) && s.readers > 0
    requires s.PcOf(t).Resetting? ==> s.PcOf(t).mode == WriteMode
    requires s.mode != WriteMode || s.writers == 0 || ReliesOnRead(s.PcOf(t)) || s.PcOf(t).Resetting?
    ensures GetsInAlone(s, t)
    decreases Rank(s.PcOf(t))
  {
    hide Next, GetsInAlone, OwnEvent;
    if s.PcOf(t).Reading? {
      InNow(s, t);
    } else if s.PcOf(t).Loop? {
      ReaderLooksAndEnters(s, t);
    } else {
      var s1 := OwnStep(s, t);
      ReaderStep(s, t, s1);
      ReaderGetsIn(s1, t);
      InAfterOne(s, t, OwnEvent(s.PcOf(t)), s1);
    }
  }

  /** A waiting reader, wherever it is in ReadLock, gets in by its own steps, whatever mode was
      left behind, if and only if the mode is not the writers', or no writer has announced
      itself, or it has seen kRead already, or is about to reset the mode. */
  lemma ReaderGetsInExactlyWhen(ss: seq<State>, acts: seq<Action>, i: nat, t: Tid)
    requires Run(ss, acts) && i < |ss| && IsReader(ss[i].PcOf(t))
    ensures GetsInAlone(ss[i], t) <==>
              ss[i].mode != WriteMode || ss[i].writers == 0 || ReliesOnRead(ss[i].PcOf(t)) || ss[i].PcOf(t).Resetting?
  {
    var s := ss[i];
    Reachable(ss, acts, i);
    InsideIsCounted(s, t);
    assert s.PcOf(t).Resetting? ==> s.PcOf(t).mode == WriteMode;
    hide Next, Solo, Inv;
    if s.mode != WriteMode || s.writers == 0 || ReliesOnRead(s.PcOf(t)) || s.PcOf(t).Resetting? {
      ReaderGetsIn(s, t);
    } else {
      forall p, s' | Solo(s, t, p, s') ensures !IsInside(s'.PcOf(t)) {
        ReaderNeverGetsIn(s, t, p, s');
      }
    }
  }

  // ---- writers ---------------------------------------------------------------------------

  lemma WriterEnters(s: State, t: Tid)
    requires s.PcOf(t) == Updated(Writer(s.curWriter), s.mode) && s.mode != ReadMode
    ensures GetsInAlone(s, t)
  {
    var k := s.curWriter;
    if s.mode == WriteMode {
      var s' := s.At(t, Writing(k));
      InNow(s', t);
      InAfterOne(s, t, LoadCurWriter, s');
    } else {
      var s1 := s.At(t, Claimed(k)).(mode := WriteMode);
      var s2 := s1.At(t, Checking(k));
      var s' := s2.At(t, Writing(k));
      InNow(s', t);
      InAfterOne(s2, t, LoadCurWriter, s');
      InAfterOne(s1, t, Reload, s2);
      InAfterOne(s, t, WriteClaim(true), s1);
    }
  }

  /** A writer that saw kNone and whose turn it is is in after three more steps, also when its
      exchange comes too late: it reads the mode again and finds kWrite. */
  lemma LostClaimStillEnters(s: State, t: Tid) returns (s': State)
    requires s.PcOf(t) == Updated(Writer(s.curWriter), NoMode) && s.mode != ReadMode
    ensures Solo(s, t, [Action(t, WriteClaim(true)), Action(t, Reload), Action(t, LoadCurWriter)], s')
    ensures s'.PcOf(t) == Writing(s.curWriter)
  {
    var k := s.curWriter;
    var s1 := s.At(t, Claimed(k)).(mode := WriteMode);
    var s2 := s1.At(t, Checking(k));
    s' := s2.At(t, Writing(k));
    SoloEnds(s', t);
    SoloStarts(s2, t, LoadCurWriter, s', [], s');
    assert [Action(t, LoadCurWriter)] + [] == [Action(t, LoadCurWriter)];
    SoloStarts(s1, t, Reload, s2, [Action(t, LoadCurWriter)], s');
    SoloStarts(s, t, WriteClaim(true), s1, [Action(t, Reload), Action(t, LoadCurWriter)], s');
    assert [Action(t, WriteClaim(true))] + [Action(t, Reload), Action(t, LoadCurWriter)]
        == [Action(t, WriteClaim(true)), Action(t, Reload), Action(t, LoadCurWriter)];
  }

  lemma WriterLooksAndEnters(s: State, t: Tid)
    requires s.PcOf(t) == Loop(Writer(s.curWriter)) && s.writers > 0 && (s.mode != ReadMode || s.readers == 0)
    ensures GetsInAlone(s, t)
  {
    hide Next, GetsInAlone;
    var s' := Looks(s, t, Writer(s.curWriter));
    if s.mode == ReadMode {
      var s2 := ResetsAlone(s', t, Writer(s.curWriter));
      var s3 := Looks(s2, t, Writer(s.curWriter));
      WriterEnters(s3, t);
    } else {
      WriterEnters(s', t);
    }
  }

  /** The ticket of a waiting writer: the one it has, or the one it will take. */
  function TicketDue(s: State, pc: Pc): int {
    if pc.WriteCounted? then s.ticket
    else if pc.Claimed? || pc.Checking? || pc.Writing? then pc.ticket
    else if (pc.Loop? || pc.SawMode? || pc.SawReaders? || pc.Resetting? || pc.Updated?) && pc.role.Writer? then pc.role.ticket
    else -1
  }

  /** A writer that is waiting, and neither remembers kWrite nor is about to reset the mode. */
  predicate WriterWaits(pc: Pc) {
    || pc.WriteCounted? || pc.Claimed?
    || (pc.Loop? && pc.role.Writer?)
    || ((pc.SawMode? || pc.SawReaders? || pc.Updated?) && pc.role.Writer? && pc.mode != WriteMode)
  }

  predicate WriterShutOut(s: State, t: Tid) {
    s.mode == ReadMode && s.readers > 0 && WriterWaits(s.PcOf(t))
  }

  /** It is not this writer's turn. */
  predicate OutOfTurn(s: State, t: Tid) {
    IsWriter(s.PcOf(t)) && !s.PcOf(t).Writing? && TicketDue(s, s.PcOf(t)) != s.curWriter
  }

  lemma WriterStaysOut(s: State, a: Action, s': State)
    requires Next(s, a) == Some(s')
    ensures WriterShutOut(s, a.tid) ==> WriterShutOut(s', a.tid)
    ensures OutOfTurn(s, a.tid) ==> OutOfTurn(s', a.tid)
  {
  }

  lemma {:induction false} WriterNeverGetsIn(s: State, t: Tid, p: seq<Action>, s': State)
    requires (WriterShutOut(s, t) || OutOfTurn(s, t)) && Solo(s, t, p, s')
    ensures WriterShutOut(s', t) || OutOfTurn(s', t)
    decreases |p|
  {
    hide Next, WriterShutOut, OutOfTurn;
    if p != [] {
      var s1 := Next(s, p[0]).value;
      WriterStaysOut(s, p[0], s1);
      assert Solo(s1, t, p[1..], s');
      WriterNeverGetsIn(s1, t, p[1..], s');
    }
  }

  /** What the own step of the writer whose turn it is leads to, when nobody shuts it out. */
  lemma WriterStep(s: State, t: Tid, s1: State)
    requires IsWriter(s.PcOf(t)) && !s.PcOf(t).Writing? && !s.PcOf(t).Loop? && s.writers > 0
    requires TicketDue(s, s.PcOf(t)) == s.curWriter
    requires s.PcOf(t).Resetting? ==> s.PcOf(t).mode == ReadMode
    requires Next(s, Action(t, OwnEvent(s.PcOf(t)))) == Some(s1)
    requires s.mode != ReadMode || s.readers == 0 || ReliesOnWrite(s.PcOf(t)) || s.PcOf(t).Resetting?
    ensures s1.mode != ReadMode || s1.readers == 0 || ReliesOnWrite(s1.PcOf(t))
    ensures TicketDue(s1, s1.PcOf(t)) == s1.curWriter
    ensures s1.PcOf(t).Resetting? ==> s1.PcOf(t).mode == ReadMode
  {
  }

  lemma WriterGetsIn(s: State, t: Tid)
    requires IsWriter(s.PcOf(t)) && s.writers > 0 && TicketDue(s, s.PcOf(t)) == s.curWriter
    requires s.PcOf(t).Resetting? ==> s.PcOf(t).mode == ReadMode
    requires s.mode != ReadMode || s.readers == 0 || ReliesOnWrite(s.PcOf(t)) || s.PcOf(t).Resetting?
    ensures GetsInAlone(s, t)
    decreases Rank(s.PcOf(t))
  {
    hide Next, GetsInAlone, OwnEvent;
    if s.PcOf(t).Writing? {
      InNow(s, t);
    } else if s.PcOf(t).Loop? {
      WriterLooksAndEnters(s, t);
    } else {
      var s1 := OwnStep(s, t);
      WriterStep(s, t, s1);
      WriterGetsIn(s1, t);
      InAfterOne(s, t, OwnEvent(s.PcOf(t)), s1);
    }
  }

  /** A waiting writer, wherever it is in WriteLock, gets in by its own steps if and only if its
      ticket is cur_writer_, and the mode is not the readers', or no reader has announced itself,
      or it has seen kWrite already, or is about to reset the mode. */
  lemma WriterGetsInExactlyWhen(ss: seq<State>, acts: seq<Action>, i: nat, t: Tid)
    requires Run(ss, acts) && i < |ss| && IsWriter(ss[i].PcOf(t)) && !ss[i].PcOf(t).Writing?
    ensures GetsInAlone(ss[i], t) <==>
              && TicketDue(ss[i], ss[i].PcOf(t)) == ss[i].curWriter
              && (ss[i].mode != ReadMode || ss[i].readers == 0 || ReliesOnWrite(ss[i].PcOf(t)) || ss[i].PcOf(t).Resetting?)
  {
    var s := ss[i];
    Reachable(ss, acts, i);
    InsideIsCounted(s, t);
    assert s.PcOf(t).Resetting? ==> s.PcOf(t).mode == ReadMode;
    hide Next, Solo, Inv;
    if TicketDue(s, s.PcOf(t)) == s.curWriter
       && (s.mode != ReadMode || s.readers == 0 || ReliesOnWrite(s.PcOf(t)) || s.PcOf(t).Resetting?) {
      WriterGetsIn(s, t);
    } else {
      forall p, s' | Solo(s, t, p, s') ensures !IsInside(s'.PcOf(t)) {
        WriterNeverGetsIn(s, t, p, s');
      }
    }
  }

  // ---- nobody is stuck halfway -------------------------------------------------------------

  ghost predicate ComesRound(s: State, t: Tid) {
    exists p, s' :: Solo(s, t, p, s') && (IsInside(s'.PcOf(t)) || s'.PcOf(t).Loop?)
  }

  /** A thread that waits is, by its own steps, inside or back in its loop, where it looks at the
      mode afresh: it never keeps acting on what it once saw. */
  lemma LooksAfresh(s: State, t: Tid)
    requires IsReader(s.PcOf(t)) || IsWriter(s.PcOf(t))
    ensures ComesRound(s, t)
    decreases Rank(s.PcOf(t))
  {
    hide Next, OwnEvent, Rank, Solo;
    if IsInside(s.PcOf(t)) || s.PcOf(t).Loop? {
      SoloEnds(s, t);
    } else {
      var s1 := OwnStep(s, t);
      if IsInside(s1.PcOf(t)) || s1.PcOf(t).Loop? {
        SoloEnds(s1, t);
      } else {
        LooksAfresh(s1, t);
      }
      var p, s' :| Solo(s1, t, p, s') && (IsInside(s'.PcOf(t)) || s'.PcOf(t).Loop?);
      SoloStarts(s, t, OwnEvent(s.PcOf(t)), s1, p, s');
    }
  }
}
