/** What a thread still has to do once it is through with the tables: the raw free of a block whose entry it
    marked, a call of libc for an address that the table does not know, or the callback for its verdict. In
    every interleaving each of these is done once, by the thread that owes it, or is still owed. */
module TrackerDebts {
  import opened Stacks
  import opened TrackerSpec
  import opened TrackerThreads
  import opened TrackerWild

  /** What a thread at this place still has to do. */
  function Debt(place: Place): Option<Next> {
    match place
    case Unlocking(next) => if next == Return then None else Some(next)
    case Freeing(at) => Some(ThenFree(at))
    case UnknownFreeing(at) => Some(ThenUnknownFree(at))
    case UnknownReallocing(at) => Some(ThenUnknownRealloc(at))
    case Reporting(what) => Some(ThenReport(what))
    case _ => None
  }

  function Owing(w: World, next: Next): set<Thread> {
    set t | t in w.places && Debt(w.places[t]) == Some(next)
  }

  /** What a step is the doing of. */
  function DoneBy(w: World, t: Thread, step: Step): Option<Next>
    requires Possible(w, t, step)
  {
    match step
    case RawFree => Some(ThenFree(PlaceOf(w, t).at))
    case UnknownFree(_) => Some(ThenUnknownFree(PlaceOf(w, t).at))
    case UnknownRealloc(_, _) => Some(ThenUnknownRealloc(PlaceOf(w, t).at))
    case ContinueAfterReport => Some(ThenReport(PlaceOf(w, t).what))
    case ExitAfterReport => Some(ThenReport(PlaceOf(w, t).what))
    case _ => None
  }

  /** What an update of the tables leaves its thread to do. */
  function IncurredBy(w: World, t: Thread, step: Step, limit: nat): Option<Next>
    requires Possible(w, t, step)
  {
    if step.UpdateTables? && PlaceOf(Update(w, t, limit), t).Unlocking?
        && PlaceOf(Update(w, t, limit), t).next != Return then Some(PlaceOf(Update(w, t, limit), t).next) else None
  }

  function AsMultiset(next: Option<Next>): multiset<Next> {
    if next.Some? then multiset{next.value} else multiset{}
  }

  /** How often the threads of a run came to owe something, and how often they did it. */
  function Incurred(moves: seq<Move>, limit: nat): multiset<Next>
    requires RunOf(moves, limit).Some?
  {
    if moves == [] then multiset{}
    else
      var before, last := moves[..|moves| - 1], moves[|moves| - 1];
      Incurred(before, limit) + AsMultiset(IncurredBy(RunOf(before, limit).value, last.thread, last.step, limit))
  }

  function Done(moves: seq<Move>, limit: nat): multiset<Next>
    requires RunOf(moves, limit).Some?
  {
    if moves == [] then multiset{}
    else
      var before, last := moves[..|moves| - 1], moves[|moves| - 1];
      Done(before, limit) + AsMultiset(DoneBy(RunOf(before, limit).value, last.thread, last.step))
  }

  // ---- single steps ------------------------------------------------------------------------------------

  /** How a step changes what its thread owes. */
  ghost predicate Settles(before: Option<Next>, after: Option<Next>, incurred: Option<Next>, done: Option<Next>) {
    if incurred.Some? then before == None && done == None && after == incurred
    else if done.Some? then before == done && after == None
    else after == before
  }

  lemma StepSettles(w: World, t: Thread, step: Step, limit: nat)
    requires Possible(w, t, step)
    ensures Settles(Debt(PlaceOf(w, t)), Debt(PlaceOf(AfterStep(w, t, step, limit), t)),
                IncurredBy(w, t, step, limit), DoneBy(w, t, step))
  {
    hide Update, Claimed;
    if step.UpdateTables? { UpdateFrames(w, t, limit); }
  }

  lemma OwingAre(w: World, t: Thread, next: Next)
    ensures t in Owing(w, next) <==> Debt(PlaceOf(w, t)) == Some(next)
  {
  }

  lemma OwingAfter(w: World, x: World, t: Thread, next: Next)
    requires forall u: Thread :: u != t ==> PlaceOf(x, u) == PlaceOf(w, u)
    ensures |Owing(x, next)| + One(Debt(PlaceOf(w, t)) == Some(next))
         == |Owing(w, next)| + One(Debt(PlaceOf(x, t)) == Some(next))
  {
    hide Debt, Owing, PlaceOf;
    forall u: Thread
      ensures u in Owing(x, next) - {t} <==> u in Owing(w, next) - {t}
    {
      OwingAre(w, u, next);
      OwingAre(x, u, next);
    }
    assert Owing(x, next) - {t} == Owing(w, next) - {t};
    OwingAre(w, t, next);
    OwingAre(x, t, next);
    Without(Owing(w, next), t);
    Without(Owing(x, next), t);
  }

  lemma Without(threads: set<Thread>, t: Thread)
    ensures |threads| == |threads - {t}| + One(t in threads)
  {
    if t in threads { assert threads == threads - {t} + {t}; }
  }

  // ---- what verdicts leave to do -------------------------------------------------------------------------

  /** Verdicts and raw frees are counted in step with what threads came to owe and did. */
  ghost predicate Recorded(w: World, incurred: multiset<Next>, done: multiset<Next>) {
    var y := w.tally;
    && |y.doubleFrees| == incurred[ThenReport(DoubleFree)]
    && |y.mismatches| == incurred[ThenReport(FreeMissmatch)]
    && |y.leakReports| == incurred[ThenReport(PossibilityOfMemoryLeak)]
    && (forall a: Address :: y.deleteMarks[a] == incurred[ThenFree(a)] && y.frees[a] == done[ThenFree(a)])
    && (w.process.Exited? ==> done[ThenReport(w.process.why)] > 0)
  }

  /** How one step counts what its thread comes to owe, and what it does. */
  ghost predicate Counts(w: World, x: World, incurred: Option<Next>, done: Option<Next>) {
    var y, z := w.tally, x.tally;
    && |z.doubleFrees| == |y.doubleFrees| + One(incurred == Some(ThenReport(DoubleFree)))
    && |z.mismatches| == |y.mismatches| + One(incurred == Some(ThenReport(FreeMissmatch)))
    && |z.leakReports| == |y.leakReports| + One(incurred == Some(ThenReport(PossibilityOfMemoryLeak)))
    && (forall a: Address :: z.deleteMarks[a] == y.deleteMarks[a] + One(incurred == Some(ThenFree(a))))
    && (forall a: Address :: z.frees[a] == y.frees[a] + One(done == Some(ThenFree(a))))
    && (x.process.Exited? ==> done == Some(ThenReport(x.process.why)))
  }

  lemma DeleteCounts(w: World, t: Thread, limit: nat)
    requires Possible(w, t, UpdateTables) && PlaceOf(w, t).InDelete?
    ensures Counts(w, Update(w, t, limit), IncurredBy(w, t, UpdateTables, limit), None)
  {
    hide Update, CountOf, Lowered, Possible;
    DeleteCases(w, t, limit);
    DeleteTally(w, t, limit, 0);
  }

  lemma RegistrationCounts(w: World, t: Thread, limit: nat)
    requires Possible(w, t, UpdateTables) && (PlaceOf(w, t).InAlloc? || PlaceOf(w, t).Marked?)
    ensures Counts(w, Update(w, t, limit), IncurredBy(w, t, UpdateTables, limit), None)
  {
    hide Raised, Claimed, UpdateInDelete, UpdateInRealloc, MarkMoved;
  }

  lemma VerdictCounts(w: World, t: Thread, limit: nat)
    requires Possible(w, t, UpdateTables) && PlaceOf(w, t).InRealloc?
    ensures Counts(w, Update(w, t, limit), IncurredBy(w, t, UpdateTables, limit), None)
  {
    hide CountOf, Lowered, Claimed, UpdateInDelete, MarkMoved, Add;
  }

  lemma MarkCounts(w: World, t: Thread, limit: nat)
    requires Possible(w, t, UpdateTables) && PlaceOf(w, t).Moved?
    ensures Counts(w, Update(w, t, limit), IncurredBy(w, t, UpdateTables, limit), None)
  {
    hide CountOf, Lowered, Claimed, UpdateInDelete, UpdateInRealloc, Add;
  }

  lemma OtherStepCounts(w: World, t: Thread, step: Step, limit: nat)
    requires Possible(w, t, step) && !step.UpdateTables?
    ensures Counts(w, AfterStep(w, t, step, limit), None, DoneBy(w, t, step))
  {
    hide Update, Claimed;
  }

  lemma OnlyUpdates(w: World, t: Thread)
    requires Possible(w, t, UpdateTables)
    ensures var place := PlaceOf(w, t);
      place.InAlloc? || place.InDelete? || place.InRealloc? || place.Moved? || place.Marked?
  {
  }

  lemma StepCounts(w: World, t: Thread, step: Step, limit: nat)
    requires Possible(w, t, step)
    ensures Counts(w, AfterStep(w, t, step, limit), IncurredBy(w, t, step, limit), DoneBy(w, t, step))
  {
    hide Update, Possible, Counts;
    if !step.UpdateTables? {
      OtherStepCounts(w, t, step, limit);
    } else if PlaceOf(w, t).InDelete? {
      DeleteCounts(w, t, limit);
    } else if PlaceOf(w, t).InAlloc? || PlaceOf(w, t).Marked? {
      RegistrationCounts(w, t, limit);
    } else if PlaceOf(w, t).Moved? {
      MarkCounts(w, t, limit);
    } else {
      OnlyUpdates(w, t);
      VerdictCounts(w, t, limit);
    }
  }

  lemma StepRecords(w: World, t: Thread, step: Step, limit: nat, incurred: multiset<Next>, done: multiset<Next>)
    requires Possible(w, t, step) && Recorded(w, incurred, done)
    ensures Recorded(AfterStep(w, t, step, limit), incurred + AsMultiset(IncurredBy(w, t, step, limit)),
                done + AsMultiset(DoneBy(w, t, step)))
  {
    hide AfterStep, Possible, IncurredBy, DoneBy, AsMultiset;
    StepCounts(w, t, step, limit);
    forall next
      ensures (incurred + AsMultiset(IncurredBy(w, t, step, limit)))[next]
           == incurred[next] + One(IncurredBy(w, t, step, limit) == Some(next))
      ensures (done + AsMultiset(DoneBy(w, t, step)))[next] == done[next] + One(DoneBy(w, t, step) == Some(next))
    {
      AddsOne(incurred, IncurredBy(w, t, step, limit), next);
      AddsOne(done, DoneBy(w, t, step), next);
    }
  }

  lemma AddsOne(all: multiset<Next>, one: Option<Next>, next: Next)
    ensures (all + AsMultiset(one))[next] == all[next] + One(one == Some(next))
  {
  }

  // ---- every run -------------------------------------------------------------------------------------------

  ghost predicate DebtsKept(moves: seq<Move>, limit: nat)
    requires RunOf(moves, limit).Some?
  {
    var w, incurred, done := RunOf(moves, limit).value, Incurred(moves, limit), Done(moves, limit);
    && (forall next :: incurred[next] == done[next] + |Owing(w, next)|)
    && Recorded(w, incurred, done)
  }

  lemma {:induction false} RunKeepsDebts(moves: seq<Move>, limit: nat)
    requires RunOf(moves, limit).Some?
    ensures DebtsKept(moves, limit)
  {
    hide AfterStep, Possible, Recorded, IncurredBy, DoneBy, Owing, Debt;
    if moves == [] {
      BeginOwesNothing();
    } else {
      var before, last := moves[..|moves| - 1], moves[|moves| - 1];
      RunKeepsDebts(before, limit);
      var w := RunOf(before, limit).value;
      StepRecords(w, last.thread, last.step, limit, Incurred(before, limit), Done(before, limit));
      StepSettles(w, last.thread, last.step, limit);
      OthersStay(w, last.thread, last.step, limit);
      forall next
        ensures Incurred(moves, limit)[next] == Done(moves, limit)[next] + |Owing(RunOf(moves, limit).value, next)|
      {
        OwingAfter(w, RunOf(moves, limit).value, last.thread, next);
      }
    }
  }

  lemma BeginOwesNothing()
    ensures Recorded(BEGIN, multiset{}, multiset{})
    ensures forall next :: Owing(BEGIN, next) == {}
  {
  }

  /** Whatever the interleaving: of the verdicts that call for a report, by kind, as many were reported as no
      thread still has to report; and the process has exited only at a report that was made. */
  lemma VerdictsAreReported(moves: seq<Move>, limit: nat)
    requires RunOf(moves, limit).Some?
    ensures
      var w, made := RunOf(moves, limit).value, Done(moves, limit);
      && |w.tally.doubleFrees| == made[ThenReport(DoubleFree)] + |Owing(w, ThenReport(DoubleFree))|
      && |w.tally.mismatches| == made[ThenReport(FreeMissmatch)] + |Owing(w, ThenReport(FreeMissmatch))|
      && |w.tally.leakReports|
           == made[ThenReport(PossibilityOfMemoryLeak)] + |Owing(w, ThenReport(PossibilityOfMemoryLeak))|
      && (forall what :: Incurred(moves, limit)[ThenReport(what)]
            == made[ThenReport(what)] + |Owing(w, ThenReport(what))|)
      && (w.process.Exited? ==> made[ThenReport(w.process.why)] > 0)
  {
    RunKeepsDebts(moves, limit);
  }

  /** Likewise for raw frees and for the calls of libc: as many deletes marked an address as passed it to raw
      free or still owe that. */
  lemma MarksAreFreed(moves: seq<Move>, limit: nat, a: Address)
    requires RunOf(moves, limit).Some?
    ensures
      var w, done, incurred := RunOf(moves, limit).value, Done(moves, limit), Incurred(moves, limit);
      && w.tally.deleteMarks[a] == done[ThenFree(a)] + |Owing(w, ThenFree(a))|
      && w.tally.frees[a] == done[ThenFree(a)]
      && incurred[ThenUnknownFree(a)] == done[ThenUnknownFree(a)] + |Owing(w, ThenUnknownFree(a))|
      && incurred[ThenUnknownRealloc(a)] == done[ThenUnknownRealloc(a)] + |Owing(w, ThenUnknownRealloc(a))|
  {
    RunKeepsDebts(moves, limit);
  }

  /** Under callbacks that never let the process go on, a running process has made no report yet: every
      verdict that calls for one is still owed by some thread. */
  lemma {:induction false} NoReportWhileRunning(moves: seq<Move>, limit: nat, what: FailureType)
    requires RunOf(moves, limit).Some? && NoContinuing(moves) && RunOf(moves, limit).value.process == Running
    ensures Done(moves, limit)[ThenReport(what)] == 0
    ensures Incurred(moves, limit)[ThenReport(what)] == |Owing(RunOf(moves, limit).value, ThenReport(what))|
  {
    hide AfterStep, Possible, Incurred, DoneBy, Recorded, Owing;
    RunKeepsDebts(moves, limit);
    if moves != [] {
      var before, last := moves[..|moves| - 1], moves[|moves| - 1];
      assert last in moves;
      RunningMadeNoReport(RunOf(before, limit).value, last.thread, last.step, limit, what);
      NoReportWhileRunning(before, limit, what);
    }
  }

  lemma RunningMadeNoReport(w: World, t: Thread, step: Step, limit: nat, what: FailureType)
    requires Possible(w, t, step) && !step.ContinueAfterReport? && AfterStep(w, t, step, limit).process == Running
    ensures w.process == Running && DoneBy(w, t, step) != Some(ThenReport(what))
  {
    hide Update, Claimed;
  }

  // ---- what is owed can be done ---------------------------------------------------------------------------

  /** The moves by which a thread does what it owes. */
  function Settling(place: Place, t: Thread, step: Step): seq<Move> {
    (if place.Unlocking? then [Move(t, GiveMutexBack)] else []) + [Move(t, step)]
  }

  lemma GoesThenDoes(w: World, t: Thread, next: Next, step: Step, limit: nat) returns (x: World)
    requires w.process == Running && next != Return && Debt(PlaceOf(w, t)) == Some(next)
    ensures x == if PlaceOf(w, t).Unlocking? then AfterStep(w, t, GiveMutexBack, limit) else w
    ensures x.process == Running && PlaceOf(x, t) == Unlocked(next) && x.items == w.items && x.owned == w.owned
    ensures Possible(x, t, step) ==>
        RunFrom(w, Settling(PlaceOf(w, t), t, step), limit) == Some(AfterStep(x, t, step, limit))
  {
    hide RunFrom, Update, Claimed;
    if PlaceOf(w, t).Unlocking? {
      GiveBackStep(w, t, next, limit);
      OneStep(w, t, GiveMutexBack, limit);
      x := AfterStep(w, t, GiveMutexBack, limit);
      if Possible(x, t, step) {
        OneStep(x, t, step, limit);
        Continued(w, [Move(t, GiveMutexBack)], [Move(t, step)], limit);
      }
    } else {
      x := w;
      if Possible(x, t, step) {
        OneStep(x, t, step, limit);
        assert [] + [Move(t, step)] == [Move(t, step)];
      }
    }
  }

  /** From every running world in which a thread owes a report, that thread's next moves, two at most, end the
      process with it. */
  lemma OwedReportEnds(w: World, t: Thread, what: FailureType, limit: nat)
    requires w.process == Running && Debt(PlaceOf(w, t)) == Some(ThenReport(what))
    ensures var x := RunFrom(w, Settling(PlaceOf(w, t), t, ExitAfterReport), limit);
      x.Some? && x.value.process == Exited(what)
  {
    hide RunFrom, Update, Claimed;
    var x := GoesThenDoes(w, t, ThenReport(what), ExitAfterReport, limit);
  }

  /** If the callback lets the process go on, the thread is done with it, and nothing else has changed. */
  lemma OwedReportMayContinue(w: World, t: Thread, what: FailureType, limit: nat)
    requires w.process == Running && PlaceOf(w, t) == Reporting(what)
    ensures RunFrom(w, [Move(t, ContinueAfterReport)], limit) == Some(w.(places := w.places[t := Idle]))
  {
    hide RunFrom, Update, Claimed;
    OneStep(w, t, ContinueAfterReport, limit);
  }

  /** An update of the tables, and the thread's next moves up to the end of the process. */
  function ThroughReport(t: Thread): seq<Move> {
    [Move(t, UpdateTables), Move(t, GiveMutexBack), Move(t, ExitAfterReport)]
  }

  lemma RunningAfterUpdate(w: World, t: Thread, limit: nat)
    requires Possible(w, t, UpdateTables) && PlaceOf(Update(w, t, limit), t).Unlocking?
    ensures Update(w, t, limit).process == Running
  {
    hide Claimed, CountOf, Raised, Lowered, Register;
  }

  lemma {:induction false} ThreeMoves(w: World, t: Thread, a: Step, b: Step, c: Step, limit: nat)
    ensures RunFrom(w, [Move(t, a), Move(t, b), Move(t, c)], limit) ==
        if !Possible(w, t, a) then None
        else
          var x := AfterStep(w, t, a, limit);
          if !Possible(x, t, b) then None
          else
            var y := AfterStep(x, t, b, limit);
            if Possible(y, t, c) then Some(AfterStep(y, t, c, limit)) else None
  {
    hide Possible, AfterStep;
    var one, two, three := [Move(t, a)], [Move(t, a), Move(t, b)], [Move(t, a), Move(t, b), Move(t, c)];
    assert one[..0] == [] && two[..1] == one && three[..2] == two;
    assert RunFrom(w, one, limit) == if Possible(w, t, a) then Some(AfterStep(w, t, a, limit)) else None;
    assert RunFrom(w, two, limit).None? ==> RunFrom(w, three, limit).None?;
  }

  /** A thread's verdict ends the process with a report exactly when the update left the thread to make it. */
  lemma EndsIff(w: World, t: Thread, what: FailureType, limit: nat)
    requires Possible(w, t, UpdateTables)
    ensures
      var x := RunFrom(w, ThroughReport(t), limit);
      x.Some? && x.value.process == Exited(what) <==> PlaceOf(Update(w, t, limit), t) == Unlocking(ThenReport(what))
  {
    hide RunFrom, Update, Claimed;
    ThreeMoves(w, t, UpdateTables, GiveMutexBack, ExitAfterReport, limit);
    if PlaceOf(Update(w, t, limit), t).Unlocking? {
      RunningAfterUpdate(w, t, limit);
    }
  }

  /** Whatever the interleaving, a delete that holds the mutex goes on to end the process with a double free if
      and only if the address was registered and all its registrations are used up. */
  lemma DoubleFreeEndsIff(moves: seq<Move>, limit: nat, t: Thread)
    requires RunOf(moves, limit).Some? && Possible(RunOf(moves, limit).value, t, UpdateTables)
    requires PlaceOf(RunOf(moves, limit).value, t).InDelete?
    ensures
      var w, x := RunOf(moves, limit).value, RunOf(moves + ThroughReport(t), limit);
      var a := PlaceOf(w, t).ptr;
      x.Some? && x.value.process == Exited(DoubleFree) <==>
        w.tally.registrations[a] > 0 && w.tally.registrations[a] == w.tally.deleteMarks[a] + w.tally.moveMarks[a]
  {
    hide RunFrom, Update, Possible;
    DoubleFreeIffUsedUp(moves, limit, t);
    EndsIff(RunOf(moves, limit).value, t, DoubleFree, limit);
    Continued(BEGIN, moves, ThroughReport(t), limit);
  }

  /** Whatever the interleaving, a thread that registers a block goes on to end the process with a leak report if
      and only if, with this block, the live entries of an equal stack outnumber the limit and the mismatches
      that were reported on that stack. */
  lemma LeakReportEndsIff(moves: seq<Move>, limit: nat, t: Thread)
    requires limit > 0 && RunOf(moves, limit).Some? && Possible(RunOf(moves, limit).value, t, UpdateTables)
    requires PlaceOf(RunOf(moves, limit).value, t).InAlloc? || PlaceOf(RunOf(moves, limit).value, t).Marked?
    ensures
      var w, x := RunOf(moves, limit).value, RunOf(moves + ThroughReport(t), limit);
      var stack := PlaceOf(w, t).stack;
      x.Some? && x.value.process == Exited(PossibilityOfMemoryLeak) <==>
        |Live(Update(w, t, limit).items, stack)| > limit + w.tally.mismatchStacks[stack]
  {
    hide RunFrom, Update, Possible;
    LeakReportIff(moves, limit, t);
    EndsIff(RunOf(moves, limit).value, t, PossibilityOfMemoryLeak, limit);
    Continued(BEGIN, moves, ThroughReport(t), limit);
  }

  /** Whatever the interleaving, a realloc that holds the mutex goes on to end the process as one of deleted
      memory, or of a block of another type, exactly by the account and the last registration of its address. */
  lemma BadReallocEndsIff(moves: seq<Move>, limit: nat, t: Thread)
    requires RunOf(moves, limit).Some? && Possible(RunOf(moves, limit).value, t, UpdateTables)
    requires PlaceOf(RunOf(moves, limit).value, t).InRealloc?
    ensures
      var w, x := RunOf(moves, limit).value, RunOf(moves + ThroughReport(t), limit);
      var a, y := PlaceOf(w, t).ptr, w.tally;
      && (x.Some? && x.value.process == Exited(BadReallocDeletedMem) <==>
            a in w.items && w.items[a].typ == Malloc && y.registrations[a] == y.deleteMarks[a] + y.moveMarks[a])
      && (x.Some? && x.value.process == Exited(BadReallocCreatedByWrongAlloc) <==>
            a in w.items && w.items[a].typ != Malloc)
  {
    hide RunFrom, AfterStep, Possible, ClaimsKept, ReallocKept, MutexKept, VacatedKept, CountsKept, LimitKept;
    EveryRunKeeps(moves, limit);
    var w := RunOf(moves, limit).value;
    assert Balanced(w, PlaceOf(w, t).ptr);
    EndsIff(w, t, BadReallocDeletedMem, limit);
    EndsIff(w, t, BadReallocCreatedByWrongAlloc, limit);
    Continued(BEGIN, moves, ThroughReport(t), limit);
  }

  /** From every running world in which a thread owes a raw free, its next moves give the block back. */
  lemma OwedFreeFrees(w: World, t: Thread, a: Address, limit: nat)
    requires w.process == Running && Debt(PlaceOf(w, t)) == Some(ThenFree(a))
    ensures var x := RunFrom(w, Settling(PlaceOf(w, t), t, RawFree), limit);
      x.Some? && x.value.owned == w.owned - {a} && x.value.items == w.items && PlaceOf(x.value, t) == Idle
        && x.value.tally.frees[a] == w.tally.frees[a] + 1
  {
    hide RunFrom, Update, Claimed;
    var x := GoesThenDoes(w, t, ThenFree(a), RawFree, limit);
  }

  /** The same for an address that the table does not know: its block goes back to libc once nobody holds it,
      unless the pool takes it. */
  lemma OwedUnknownFreeFrees(w: World, t: Thread, a: Address, inPool: bool, limit: nat)
    requires w.process == Running && Debt(PlaceOf(w, t)) == Some(ThenUnknownFree(a)) && MutexKept(w)
    requires inPool || a !in Claimed(w)
    ensures var x := RunFrom(w, Settling(PlaceOf(w, t), t, UnknownFree(inPool)), limit);
      && x.Some? && x.value.owned == (if inPool then w.owned else w.owned - {a})
      && x.value.items == w.items && PlaceOf(x.value, t) == Idle
  {
    hide RunFrom, Update;
    var x := GoesThenDoes(w, t, ThenUnknownFree(a), UnknownFree(inPool), limit);
    if PlaceOf(w, t).Unlocking? && !inPool { SameClaims(w, t, ThenUnknownFree(a), a, limit); }
  }

  /** A realloc of such an address trades the block for the one that libc answers with, if it answers. */
  lemma OwedUnknownReallocTrades(w: World, t: Thread, a: Address, to: Address, limit: nat)
    requires w.process == Running && Debt(PlaceOf(w, t)) == Some(ThenUnknownRealloc(a)) && MutexKept(w)
    requires a !in Claimed(w) && (to == a || to !in w.owned)
    ensures var x := RunFrom(w, Settling(PlaceOf(w, t), t, UnknownRealloc(false, to)), limit);
      && x.Some? && x.value.owned == (if to == 0 then w.owned else w.owned - {a} + {to})
      && x.value.items == w.items && PlaceOf(x.value, t) == Idle
  {
    hide RunFrom, Update;
    var x := GoesThenDoes(w, t, ThenUnknownRealloc(a), UnknownRealloc(false, to), limit);
    if PlaceOf(w, t).Unlocking? { SameClaims(w, t, ThenUnknownRealloc(a), a, limit); }
  }

  /** A thread that has no claim gives none up with the mutex. */
  lemma SameClaims(w: World, t: Thread, next: Next, a: Address, limit: nat)
    requires MutexKept(w) && w.process == Running && PlaceOf(w, t) == Unlocking(next) && !next.ThenFree?
      && a !in Claimed(w)
    ensures Possible(w, t, GiveMutexBack) && a !in Claimed(AfterStep(w, t, GiveMutexBack, limit))
  {
    hide Update;
    var x := AfterStep(w, t, GiveMutexBack, limit);
    assert Holds(PlaceOf(w, t));
    forall u: Thread
      ensures Claim(PlaceOf(x, u)) != Some(a)
    {
      assert u != t ==> PlaceOf(x, u) == PlaceOf(w, u);
      ThreadClaimsAre(w, a);
    }
    ThreadClaimsAre(x, a);
  }

  // ---- where the blocks are ---------------------------------------------------------------------------------

  /** A client has the block from outside the tracker, or from a realloc that the tracker passed on. */
  predicate BringsIn(step: Step, a: Address) {
    step == ForeignMalloc(a) || (step.UnknownRealloc? && step.to == a)
  }

  ghost predicate IsForeign(moves: seq<Move>, a: Address) {
    exists m :: m in moves && BringsIn(m.step, a)
  }

  lemma OwnClaim(w: World, t: Thread, step: Step, limit: nat, a: Address)
    requires Possible(w, t, step) && a in AfterStep(w, t, step, limit).owned && !BringsIn(step, a)
    requires (a !in w.owned) || a in Lost(w, t, step) || Claim(PlaceOf(w, t)) == Some(a)
    ensures Claim(PlaceOf(AfterStep(w, t, step, limit), t)) == Some(a) || a in Gained(w, t, step)
  {
    hide Update, Claimed, Lost, Gained;
    if step.UpdateTables? {
      UpdateFrames(w, t, limit);
      if PlaceOf(w, t).InDelete? { DeleteClaims(w, t, limit, a); } else { UpdateClaims(w, t, limit, a); }
    } else {
      LostElsewhere(w, t, step, a);
    }
  }

  lemma LostElsewhere(w: World, t: Thread, step: Step, a: Address)
    requires !step.UpdateTables?
    ensures a in Lost(w, t, step) ==> step.RawRealloc? && PlaceOf(w, t).Moving? && PlaceOf(w, t).ptr == a != step.to
  {
  }

  lemma DeleteClaims(w: World, t: Thread, limit: nat, a: Address)
    requires Possible(w, t, UpdateTables) && PlaceOf(w, t).InDelete?
    requires a in Lost(w, t, UpdateTables)
    ensures Claim(PlaceOf(Update(w, t, limit), t)) == Some(a)
  {
    hide Update, Possible, CountOf, Lowered;
    DeleteCases(w, t, limit);
  }

  lemma UpdateClaims(w: World, t: Thread, limit: nat, a: Address)
    requires Possible(w, t, UpdateTables) && !PlaceOf(w, t).InDelete?
    requires a in Lost(w, t, UpdateTables) || Claim(PlaceOf(w, t)) == Some(a)
    ensures Claim(PlaceOf(Update(w, t, limit), t)) == Some(a) || a in Gained(w, t, UpdateTables)
  {
    hide Raised, Lowered, Claimed, CountOf, UpdateInDelete, Add;
  }

  lemma StaysClaimed(w: World, t: Thread, step: Step, limit: nat, a: Address)
    requires Kept(w, limit) && Possible(w, t, step) && a in AfterStep(w, t, step, limit).owned && !BringsIn(step, a)
    requires a in w.owned ==> a in Claimed(w)
    ensures a in Claimed(AfterStep(w, t, step, limit))
  {
    hide AfterStep, Possible, Tabled, Claim, Gained, Lost, ThreadClaims, TallyKept, CountsKept, LimitKept, VacatedKept,
      MutexKept, ReallocKept, ClaimsKept, BringsIn;
    var x := AfterStep(w, t, step, limit);
    TabledAfter(w, t, step, limit);
    OthersStay(w, t, step, limit);
    ThreadClaimsAre(w, a);
    ThreadClaimsAre(x, a);
    if u: Thread :| u != t && Claim(PlaceOf(w, u)) == Some(a) {
      assert Claim(PlaceOf(x, u)) == Some(a);
    } else if a !in Tabled(w) || a in Lost(w, t, step) {
      OwnClaim(w, t, step, limit, a);
      if a in Gained(w, t, step) { GainedNotLost(w, t, step, a); }
    }
  }

  lemma GainedNotLost(w: World, t: Thread, step: Step, a: Address)
    requires a in Gained(w, t, step)
    ensures a !in Lost(w, t, step)
  {
  }

  /** Whatever the interleaving, a block that the raw allocator has handed out is live in the table or in the
      hands of one thread, unless a client has it from elsewhere: no block gets lost on its way to raw free. */
  lemma {:induction false} BlocksAccountedFor(moves: seq<Move>, limit: nat, a: Address)
    requires RunOf(moves, limit).Some? && a in RunOf(moves, limit).value.owned
    ensures a in Claimed(RunOf(moves, limit).value) || IsForeign(moves, a)
  {
    hide AfterStep, Possible, Claimed, Kept, BringsIn;
    if moves != [] {
      var before, last := moves[..|moves| - 1], moves[|moves| - 1];
      assert last in moves;
      EveryRunKeeps(before, limit);
      var w := RunOf(before, limit).value;
      if a in w.owned {
        BlocksAccountedFor(before, limit, a);
        if IsForeign(before, a) {
          var m :| m in before && BringsIn(m.step, a);
          assert m in moves;
          return;
        }
      }
      if !BringsIn(last.step, a) { StaysClaimed(w, last.thread, last.step, limit, a); }
    }
  }

  /** Memory from outside the tracker comes and goes without a trace in the tables. */
  lemma ForeignComesAndGoes(w: World, t: Thread, a: Address, limit: nat)
    requires ClaimsKept(w) && w.process == Running && PlaceOf(w, t) == Idle && a != 0 && a !in w.owned
    ensures RunFrom(w, [Move(t, ForeignMalloc(a))], limit) == Some(w.(owned := w.owned + {a}))
    ensures RunFrom(w, [Move(t, ForeignMalloc(a)), Move(t, ForeignFree(a))], limit) == Some(w)
  {
    hide RunFrom, Update;
    if a in Claimed(w) { ClaimedIsOwned(w, a); }
    assert Claimed(w.(owned := w.owned + {a})) == Claimed(w);
    OneStep(w, t, ForeignMalloc(a), limit);
    Extended(w, [Move(t, ForeignMalloc(a))], t, ForeignFree(a), limit);
    assert [Move(t, ForeignMalloc(a))] + [Move(t, ForeignFree(a))]
        == [Move(t, ForeignMalloc(a)), Move(t, ForeignFree(a))];
    assert w.owned + {a} - {a} == w.owned;
  }

  // ---- a block is freed and handed out again ----------------------------------------------------------------

  /** From every world with a free mutex, an idle thread allocates a block that the raw allocator has: its entry
      is live, with the call's type and stack, and counted. */
  lemma AllocCompletes(w: World, t: Thread, a: Address, typ: MemoryType, stack: Stack, limit: nat)
      returns (moves: seq<Move>, x: World)
    requires w.process == Running && w.mutex == None && PlaceOf(w, t) == Idle && a != 0 && a !in w.owned
    ensures RunFrom(w, moves, limit) == Some(x) && NoContinuing(moves)
    ensures x.process == Running && x.mutex == None && x.owned == w.owned + {a}
    ensures x.items == w.items[a := Item(typ, Allocated, a, stack, None)]
    ensures x.counts == w.counts[stack := Raised(w.counts, stack, limit)]
    ensures PlaceOf(x, t) == (if stack in w.counts && limit > 0 && Raised(w.counts, stack, limit) > limit
        then Reporting(PossibilityOfMemoryLeak) else Idle)
    ensures forall u: Thread :: u != t ==> PlaceOf(x, u) == PlaceOf(w, u)
  {
    hide RunFrom, AfterStep, Possible, Raised;
    MallocStep(w, t, a, typ, stack, limit);
    var raw := AfterStep(w, t, RawMalloc(a, typ, stack), limit);
    MutexStep(raw, t, a, typ, stack, limit);
    var locked := AfterStep(raw, t, TakeMutex, limit);
    RegisterStep(locked, t, a, typ, stack, limit);
    var added := AfterStep(locked, t, UpdateTables, limit);
    GiveBackStep(added, t, AfterAdd(locked, stack, limit), limit);
    x := AfterStep(added, t, GiveMutexBack, limit);
    var m1 := [Move(t, RawMalloc(a, typ, stack))];
    var m2 := m1 + [Move(t, TakeMutex)];
    var m3 := m2 + [Move(t, UpdateTables)];
    OneStep(w, t, RawMalloc(a, typ, stack), limit);
    Extended(w, m1, t, TakeMutex, limit);
    Extended(w, m2, t, UpdateTables, limit);
    Extended(w, m3, t, GiveMutexBack, limit);
    moves := m3 + [Move(t, GiveMutexBack)];
  }

  /** From every world with a free mutex, an idle thread deletes a live, counted block with the right type: its
      entry dies, the block goes back to the raw allocator, and nothing else about blocks and entries changes. */
  lemma DeleteCompletes(w: World, t: Thread, a: Address, stack: Stack, limit: nat) returns (moves: seq<Move>, x: World)
    requires w.process == Running && w.mutex == None && PlaceOf(w, t) == Idle && a != 0
    requires IsLive(w.items, a) && CountOf(w.counts, w.items[a].allocTrace) != 0
    ensures forall m :: m in moves ==> m.thread == t
    ensures NoContinuing(moves) && RunFrom(w, moves, limit) == Some(x)
    ensures x.process == Running && x.mutex == None && x.owned == w.owned - {a}
    ensures x.items == w.items[a := w.items[a].(status := Deallocated, deallocTrace := Some(stack))]
    ensures x.counts == Lowered(w.counts, w.items[a].allocTrace)
    ensures forall u: Thread :: PlaceOf(x, u) == PlaceOf(w, u)
  {
    hide RunFrom, AfterStep, Possible, Lowered;
    var first, y := ReachesDelete(w, t, a, w.items[a].typ, stack, limit);
    MatchingStep(y, t, a, stack, limit);
    OneStep(y, t, UpdateTables, limit);
    var z := AfterStep(y, t, UpdateTables, limit);
    GiveBackStep(z, t, ThenFree(a), limit);
    OneStep(z, t, GiveMutexBack, limit);
    var v := AfterStep(z, t, GiveMutexBack, limit);
    FreeStep(v, t, a, limit);
    OneStep(v, t, RawFree, limit);
    x := AfterStep(v, t, RawFree, limit);
    var m1 := first + [Move(t, UpdateTables)];
    var m2 := m1 + [Move(t, GiveMutexBack)];
    Continued(w, first, [Move(t, UpdateTables)], limit);
    Continued(w, m1, [Move(t, GiveMutexBack)], limit);
    Continued(w, m2, [Move(t, RawFree)], limit);
    moves := m2 + [Move(t, RawFree)];
  }

  lemma MatchingStep(w: World, t: Thread, a: Address, stack: Stack, limit: nat)
    requires w.process == Running && IsLive(w.items, a) && PlaceOf(w, t) == InDelete(a, w.items[a].typ, stack) && a != 0
    requires CountOf(w.counts, w.items[a].allocTrace) != 0
    ensures Possible(w, t, UpdateTables)
    ensures var x := AfterStep(w, t, UpdateTables, limit);
      && x.process == Running && x.mutex == w.mutex && x.owned == w.owned
      && x.items == w.items[a := w.items[a].(status := Deallocated, deallocTrace := Some(stack))]
      && x.counts == Lowered(w.counts, w.items[a].allocTrace)
      && x.places == w.places[t := Unlocking(ThenFree(a))]
  {
    hide Lowered, Claimed;
  }

  /** The steps of a realloc up to its verdict, for a live block of type Malloc. */
  lemma ReachesMoving(w: World, t: Thread, a: Address, stack: Stack, limit: nat) returns (moves: seq<Move>, x: World)
    requires w.process == Running && w.mutex == None && PlaceOf(w, t) == Idle && a != 0
    requires IsLive(w.items, a) && w.items[a].typ == Malloc
    ensures RunFrom(w, moves, limit) == Some(x) && NoContinuing(moves)
    ensures x == w.(mutex := Some(t), places := w.places[t := Moving(a, stack)])
  {
    hide RunFrom, Claimed, CountOf, Lowered, Raised;
    ThreeMoves(w, t, CallRealloc(a, stack), TakeMutex, UpdateTables, limit);
    moves := [Move(t, CallRealloc(a, stack)), Move(t, TakeMutex), Move(t, UpdateTables)];
    x := RunFrom(w, moves, limit).value;
  }

  /** A realloc that leaves the block where it is changes nothing. */
  lemma InPlaceCompletes(w: World, t: Thread, a: Address, stack: Stack, limit: nat)
      returns (moves: seq<Move>, x: World)
    requires w.process == Running && w.mutex == None && PlaceOf(w, t) == Idle && a != 0
    requires IsLive(w.items, a) && w.items[a].typ == Malloc
    ensures RunFrom(w, moves, limit) == Some(x) && NoContinuing(moves)
    ensures x == w.(places := w.places[t := Idle])
  {
    hide RunFrom, Claimed, Update;
    var first, y := ReachesMoving(w, t, a, stack, limit);
    Extended(w, first, t, RawRealloc(a), limit);
    var z := AfterStep(y, t, RawRealloc(a), limit);
    Extended(w, first + [Move(t, RawRealloc(a))], t, GiveMutexBack, limit);
    x := AfterStep(z, t, GiveMutexBack, limit);
    moves := first + [Move(t, RawRealloc(a))] + [Move(t, GiveMutexBack)];
  }

  lemma MovingStep(w: World, t: Thread, a: Address, to: Address, stack: Stack, limit: nat)
    requires w.process == Running && PlaceOf(w, t) == Moving(a, stack) && to != 0 && to !in w.owned && to != a
    ensures Possible(w, t, RawRealloc(to))
    ensures AfterStep(w, t, RawRealloc(to), limit)
         == w.(owned := w.owned - {a} + {to}, places := w.places[t := Moved(a, to, stack)])
  {
    hide Claimed, Update;
  }

  lemma MarkingStep(w: World, t: Thread, a: Address, to: Address, stack: Stack, limit: nat)
    requires w.process == Running && PlaceOf(w, t) == Moved(a, to, stack) && to != 0
    requires a in w.items && CountOf(w.counts, w.items[a].allocTrace) != 0
    ensures Possible(w, t, UpdateTables)
    ensures var x := AfterStep(w, t, UpdateTables, limit);
      && x.items == w.items[a := w.items[a].(status := Deallocated)]
      && x.counts == Lowered(w.counts, w.items[a].allocTrace)
      && x.owned == w.owned && x.mutex == w.mutex && x.process == Running
      && x.places == w.places[t := Marked(to, stack)]
  {
    hide Claimed, Lowered, Add, UpdateInDelete;
  }

  lemma AddingStep(w: World, t: Thread, to: Address, stack: Stack, limit: nat)
    requires w.process == Running && PlaceOf(w, t) == Marked(to, stack)
    ensures Possible(w, t, UpdateTables)
    ensures var x := AfterStep(w, t, UpdateTables, limit);
      && x.items == w.items[to := Item(Malloc, Allocated, to, stack, None)]
      && x.counts == w.counts[stack := Raised(w.counts, stack, limit)]
      && x.owned == w.owned && x.mutex == w.mutex && x.process == Running
      && x.places == w.places[t := Unlocking(AfterAdd(w, stack, limit))]
  {
    hide Claimed, Lowered, Raised, UpdateInDelete;
  }

  /** From every world with a free mutex, an idle thread reallocates a live, counted block of type Malloc to a
      place that the raw allocator has: the old block is gone and its entry dead, the new one is live. */
  lemma MoveCompletes(w: World, t: Thread, a: Address, to: Address, stack: Stack, limit: nat)
      returns (moves: seq<Move>, x: World)
    requires w.process == Running && w.mutex == None && PlaceOf(w, t) == Idle && a != 0
    requires IsLive(w.items, a) && w.items[a].typ == Malloc && CountOf(w.counts, w.items[a].allocTrace) != 0
    requires to != 0 && to !in w.owned && to != a
    ensures RunFrom(w, moves, limit) == Some(x) && NoContinuing(moves)
    ensures x.process == Running && x.mutex == None && x.owned == w.owned - {a} + {to}
    ensures x.items == w.items[a := w.items[a].(status := Deallocated)][to := Item(Malloc, Allocated, to, stack, None)]
    ensures var lowered := Lowered(w.counts, w.items[a].allocTrace);
      x.counts == lowered[stack := Raised(lowered, stack, limit)]
    ensures forall u: Thread :: u != t ==> PlaceOf(x, u) == PlaceOf(w, u)
  {
    hide RunFrom, AfterStep, Possible, Lowered, Raised, AfterAdd;
    var first, y := ReachesMoving(w, t, a, stack, limit);
    MovingStep(y, t, a, to, stack, limit);
    var moved := AfterStep(y, t, RawRealloc(to), limit);
    MarkingStep(moved, t, a, to, stack, limit);
    var marked := AfterStep(moved, t, UpdateTables, limit);
    AddingStep(marked, t, to, stack, limit);
    var added := AfterStep(marked, t, UpdateTables, limit);
    GiveBackStep(added, t, AfterAdd(marked, stack, limit), limit);
    x := AfterStep(added, t, GiveMutexBack, limit);
    var m1 := first + [Move(t, RawRealloc(to))];
    var m2 := m1 + [Move(t, UpdateTables)];
    var m3 := m2 + [Move(t, UpdateTables)];
    Extended(w, first, t, RawRealloc(to), limit);
    Extended(w, m1, t, UpdateTables, limit);
    Extended(w, m2, t, UpdateTables, limit);
    Extended(w, m3, t, GiveMutexBack, limit);
    moves := m3 + [Move(t, GiveMutexBack)];
  }

  /** An address is allocated, deleted and allocated again, by three threads, from every world with a free mutex
      in which the raw allocator has its block. */
  lemma BlockIsReused(w: World, t: Thread, u: Thread, v: Thread, a: Address, limit: nat)
      returns (allocation: seq<Move>, deletion: seq<Move>, again: seq<Move>)
    requires w.process == Running && w.mutex == None && limit > 0 && a != 0 && a !in w.owned
    requires t != u && t != v && u != v && PlaceOf(w, t) == PlaceOf(w, u) == PlaceOf(w, v) == Idle
    ensures NoContinuing(allocation + deletion + again)
    ensures
      var first, second := RunFrom(w, allocation, limit), RunFrom(w, allocation + deletion, limit);
      var third := RunFrom(w, allocation + deletion + again, limit);
      && first.Some? && IsLive(first.value.items, a) && a in first.value.owned
      && second.Some? && !IsLive(second.value.items, a) && a !in second.value.owned
      && third.Some? && IsLive(third.value.items, a) && a in third.value.owned && third.value.process == Running
  {
    hide RunFrom, AfterStep, Possible, Lowered;
    var x, y, z;
    allocation, x := RegistersBlock(w, t, a, limit);
    deletion, y := DeleteCompletes(x, u, a, [0], limit);
    again, z := RegistersBlock(y, v, a, limit);
    Continued(w, allocation, deletion, limit);
    Continued(w, allocation + deletion, again, limit);
  }
}
