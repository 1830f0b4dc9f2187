/** The leak-only tracker shared by any number of threads, whose clients give back through operator
    delete only what they own. Raw malloc, taking the mutex, the update of both tables, giving the mutex
    back and raw free are separate steps, and the threads' steps interleave in any order. */
module LeakThreads {
  import opened Stacks
  import opened TrackerSpec
  import opened LeakOnlySpec

  type Thread = nat

  datatype Next = ThenHandOut(at: Address) | ThenExit(at: Address) | ThenFree(at: Address)

  datatype Place =
    | Idle
    | HasRaw(at: Address, captured: Option<Stack>)    // raw malloc returned, mutex not yet taken
    | InAlloc(at: Address, stack: Stack)
    | WantsFree(at: Address)
    | InFree(at: Address)
    | Unlocking(next: Next)
    | Freeing(at: Address)                            // entry gone, mutex given back, raw free comes next
    | Exiting(at: Address)                            // the leak report ends the process

  datatype World = World(
    view: View,
    owned: set<Address>,      // blocks that the raw allocator has handed out
    held: set<Address>,       // those of them that clients own
    mutex: Option<Thread>,
    places: map<Thread, Place>)

  const BEGIN: World := World(EMPTY, {}, {}, None, map[])

  function PlaceOf(w: World, t: Thread): Place {
    if t in w.places then w.places[t] else Idle
  }

  function Go(w: World, t: Thread, place: Place): World {
    w.(places := w.places[t := place])
  }

  datatype Step =
    | RawMalloc(at: Address, captured: Option<Stack>)
    | ReturnUntracked                                 // no stack could be captured
    | CallDelete(at: Address)
    | TakeMutex
    | UpdateTables(late: bool)
    | GiveMutexBack
    | RawFree
    | Exit
    | ForeignMalloc(at: Address)                      // memory from malloc, which clients free with free
    | ForeignFree(at: Address)

  predicate Holds(place: Place) {
    place.InAlloc? || place.InFree? || place.Unlocking?
  }

  /** The raw block that a thread alone is responsible for. */
  function Claim(place: Place): Option<Address> {
    match place
    case HasRaw(at, _) => Some(at)
    case InAlloc(at, _) => Some(at)
    case WantsFree(at) => if at == 0 then None else Some(at)
    case InFree(at) => if at == 0 then None else Some(at)
    case Unlocking(ThenHandOut(at)) => Some(at)
    case Unlocking(ThenExit(at)) => Some(at)
    case Exiting(at) => Some(at)
    case Unlocking(ThenFree(at)) => if at == 0 then None else Some(at)
    case Freeing(at) => if at == 0 then None else Some(at)
    case _ => None
  }

  function ThreadClaims(w: World): set<Address> {
    set t | t in w.places && Claim(w.places[t]).Some? :: Claim(w.places[t]).value
  }

  /** The raw allocator hands out only blocks that nobody holds; clients delete only what they own, or
      null; foreign memory is freed only while it is neither a client's nor in flight. */
  predicate Possible(w: World, t: Thread, step: Step) {
    var place := PlaceOf(w, t);
    && w.view.process == Running
    && match step
       case RawMalloc(at, _) => place.Idle? && at != 0 && at !in w.owned
       case ReturnUntracked => place.HasRaw? && place.captured == None
       case CallDelete(at) => place.Idle? && (at == 0 || at in w.held)
       case TakeMutex => w.mutex == None && ((place.HasRaw? && place.captured.Some?) || place.WantsFree?)
       case UpdateTables(_) => place.InAlloc? || place.InFree?
       case GiveMutexBack => place.Unlocking?
       case RawFree => place.Freeing?
       case Exit => place.Exiting?
       case ForeignMalloc(at) => place.Idle? && at != 0 && at !in w.owned
       case ForeignFree(at) => place.Idle? && at !in w.held && at !in ThreadClaims(w)
  }

  function Record(w: World, t: Thread, at: Address, stack: Stack, late: bool, build: Build): World {
    var x := LeakAlloc(w.view, at, Some(stack), late, build);
    if x.process == AssertFailed then w.(view := x)
    else Go(w.(view := x.(process := Running)), t,
        Unlocking(if x.process == Running then ThenHandOut(at) else ThenExit(at)))
  }

  function After(w: World, t: Thread, step: Step, build: Build): World
    requires Possible(w, t, step)
  {
    var place := PlaceOf(w, t);
    match step
    case RawMalloc(at, captured) => Go(w.(owned := w.owned + {at}), t, HasRaw(at, captured))
    case ReturnUntracked => Go(w.(held := w.held + {place.at}), t, Idle)
    case CallDelete(at) => Go(w.(held := w.held - {at}), t, WantsFree(at))
    case TakeMutex =>
      Go(w.(mutex := Some(t)), t, if place.HasRaw? then InAlloc(place.at, place.captured.value) else InFree(place.at))
    case UpdateTables(late) =>
      if place.InAlloc? then Record(w, t, place.at, place.stack, late, build)
      else Go(w.(view := AfterFree(w.view, place.at)), t, Unlocking(ThenFree(place.at)))
    case GiveMutexBack =>
      (match place.next
       case ThenHandOut(at) => Go(w.(mutex := None, held := w.held + {at}), t, Idle)
       case ThenExit(at) => Go(w.(mutex := None), t, Exiting(at))
       case ThenFree(at) => Go(w.(mutex := None), t, Freeing(at)))
    case RawFree => Go(w.(owned := w.owned - {place.at}), t, Idle)
    case Exit => w.(view := w.view.(process := Exited(PossibilityOfMemoryLeak)))
    case ForeignMalloc(at) => w.(owned := w.owned + {at})
    case ForeignFree(at) => w.(owned := w.owned - {at})
  }

  // ---- what every step keeps -------------------------------------------------------------------------

  ghost predicate MutexKept(w: World) {
    forall t: Thread :: Holds(PlaceOf(w, t)) <==> w.mutex == Some(t)
  }

  /** Every block has at most one holder, the clients or one thread. */
  ghost predicate ClaimsKept(w: World) {
    && 0 !in w.owned
    && w.held <= w.owned
    && (forall t: Thread :: Claim(PlaceOf(w, t)).Some? ==>
          Claim(PlaceOf(w, t)).value in w.owned && Claim(PlaceOf(w, t)).value !in w.held)
    && (forall t: Thread, u: Thread :: t != u && Claim(PlaceOf(w, t)).Some? ==>
        Claim(PlaceOf(w, t)) != Claim(PlaceOf(w, u)))
  }

  /** The block whose entry may be there although no client owns it. */
  function MayHaveEntry(place: Place): Option<Address> {
    match place
    case WantsFree(at) => Some(at)
    case InFree(at) => Some(at)
    case Unlocking(ThenHandOut(at)) => Some(at)
    case Unlocking(ThenExit(at)) => Some(at)
    case Exiting(at) => Some(at)
    case _ => None
  }

  /** An entry belongs to a block of a client, of a delete that has not yet reached the tables, or of an
      allocation that has already been there. */
  ghost predicate EntryKept(w: World, a: Address) {
    a in w.view.entries ==> a in w.held || exists t: Thread :: MayHaveEntry(PlaceOf(w, t)) == Some(a)
  }

  ghost predicate EntriesKept(w: World) {
    0 !in w.view.entries && forall a: Address :: EntryKept(w, a)
  }

  ghost predicate Kept(w: World) {
    MutexKept(w) && ClaimsKept(w) && EntriesKept(w) && Counted(w.view) && w.view.process != AssertFailed
  }

  lemma EntryIsClaim(place: Place, a: Address)
    requires MayHaveEntry(place) == Some(a) && a != 0
    ensures Claim(place) == Some(a)
  {
  }

  /** An address that an allocation brings to the tables has no entry yet. */
  lemma NoStaleEntry(w: World, t: Thread)
    requires ClaimsKept(w) && EntriesKept(w) && PlaceOf(w, t).InAlloc?
    ensures PlaceOf(w, t).at != 0 && PlaceOf(w, t).at !in w.view.entries
  {
    var a := PlaceOf(w, t).at;
    assert Claim(PlaceOf(w, t)) == Some(a) && EntryKept(w, a);
    forall u: Thread
      ensures MayHaveEntry(PlaceOf(w, u)) != Some(a)
    {
      assert u != t ==> Claim(PlaceOf(w, u)) != Some(a);
    }
  }

  /** Every address in the table is one that the raw allocator has handed out. */
  lemma EntriesAreOwned(w: World, a: Address)
    requires ClaimsKept(w) && EntriesKept(w) && a in w.view.entries
    ensures a in w.owned
  {
    assert EntryKept(w, a);
    if a !in w.held {
      var u: Thread :| MayHaveEntry(PlaceOf(w, u)) == Some(a);
      EntryIsClaim(PlaceOf(w, u), a);
    }
  }

  lemma OthersStay(w: World, t: Thread, step: Step, build: Build)
    requires Possible(w, t, step)
    ensures forall u: Thread :: u != t ==> PlaceOf(After(w, t, step, build), u) == PlaceOf(w, u)
  {
    hide LeakAlloc, LeakOnlySpec.AfterFree, ThreadClaims;
  }

  lemma StepKeepsMutex(w: World, t: Thread, step: Step, build: Build)
    requires MutexKept(w) && Possible(w, t, step)
    ensures MutexKept(After(w, t, step, build))
  {
    hide LeakAlloc, LeakOnlySpec.AfterFree, ThreadClaims;
    assert Holds(PlaceOf(w, t)) <==> w.mutex == Some(t);
    OthersStay(w, t, step, build);
  }

  lemma ThreadClaimsAre(w: World, a: Address)
    ensures a in ThreadClaims(w) <==> exists t: Thread :: Claim(PlaceOf(w, t)) == Some(a)
  {
    if t: Thread :| Claim(PlaceOf(w, t)) == Some(a) {
      assert t in w.places;
    }
    if a in ThreadClaims(w) {
      var t :| t in w.places && Claim(w.places[t]).Some? && Claim(w.places[t]).value == a;
      assert Claim(PlaceOf(w, t)) == Some(a);
    }
  }

  /** A block that a step gives back to the raw allocator, or hands to the clients, is nobody else's. */
  lemma OthersStayOwned(w: World, t: Thread, step: Step, build: Build, a: Address)
    requires ClaimsKept(w) && Possible(w, t, step)
    requires (a in w.owned && a !in After(w, t, step, build).owned)
      || (a !in w.held && a in After(w, t, step, build).held)
    ensures a in After(w, t, step, build).held ==> a in After(w, t, step, build).owned
    ensures forall u: Thread :: u != t ==> Claim(PlaceOf(w, u)) != Some(a)
  {
    hide LeakAlloc, LeakOnlySpec.AfterFree, ThreadClaims;
    ThreadClaimsAre(w, a);
  }

  lemma NewClaim(w: World, t: Thread, step: Step, build: Build, a: Address)
    requires ClaimsKept(w) && Possible(w, t, step) && Claim(PlaceOf(After(w, t, step, build), t)) == Some(a)
    ensures a in After(w, t, step, build).owned && a !in After(w, t, step, build).held
    ensures forall u: Thread :: u != t ==> Claim(PlaceOf(w, u)) != Some(a)
  {
    hide LeakAlloc, LeakOnlySpec.AfterFree, ThreadClaims;
  }

  lemma NullStaysUnowned(w: World, t: Thread, step: Step, build: Build)
    requires 0 !in w.owned && Possible(w, t, step)
    ensures 0 !in After(w, t, step, build).owned
  {
    hide LeakAlloc, LeakOnlySpec.AfterFree, ThreadClaims;
  }

  lemma StepKeepsClaims(w: World, t: Thread, step: Step, build: Build)
    requires MutexKept(w) && ClaimsKept(w) && Possible(w, t, step)
    ensures ClaimsKept(After(w, t, step, build))
  {
    hide After, Possible, Claim;
    var x := After(w, t, step, build);
    NullStaysUnowned(w, t, step, build);
    OthersStay(w, t, step, build);
    forall a | (a in w.owned && a !in x.owned) || (a !in w.held && a in x.held) {
      OthersStayOwned(w, t, step, build, a);
    }
    if Claim(PlaceOf(x, t)).Some? {
      NewClaim(w, t, step, build, Claim(PlaceOf(x, t)).value);
    }
  }

  lemma WhereEntriesGo(w: World, t: Thread, step: Step, build: Build, a: Address)
    requires ClaimsKept(w) && EntriesKept(w) && Possible(w, t, step) && a in After(w, t, step, build).view.entries
    ensures a != 0 && (a in w.view.entries || MayHaveEntry(PlaceOf(After(w, t, step, build), t)) == Some(a))
    ensures a in w.held || MayHaveEntry(PlaceOf(w, t)) == Some(a) ==>
      a in After(w, t, step, build).held || MayHaveEntry(PlaceOf(After(w, t, step, build), t)) == Some(a)
  {
    hide ThreadClaims, CountOf, Lowered;
    if PlaceOf(w, t).InAlloc? { NoStaleEntry(w, t); }
  }

  lemma StepKeepsEntries(w: World, t: Thread, step: Step, build: Build)
    requires ClaimsKept(w) && EntriesKept(w) && Possible(w, t, step)
    ensures EntriesKept(After(w, t, step, build))
  {
    hide After, Possible, Claim, MayHaveEntry;
    var x := After(w, t, step, build);
    OthersStay(w, t, step, build);
    forall a: Address | a in x.view.entries
      ensures a != 0 && EntryKept(x, a)
    {
      WhereEntriesGo(w, t, step, build, a);
      if a in w.view.entries {
        assert EntryKept(w, a);
      }
      if u: Thread :| u != t && MayHaveEntry(PlaceOf(w, u)) == Some(a) {
        assert MayHaveEntry(PlaceOf(x, u)) == Some(a);
      }
    }
  }

  lemma StepKeepsCounts(w: World, t: Thread, step: Step, build: Build)
    requires ClaimsKept(w) && EntriesKept(w) && Counted(w.view) && Possible(w, t, step)
    ensures Counted(After(w, t, step, build).view) && After(w, t, step, build).view.process != AssertFailed
  {
    hide ThreadClaims, CountOf, Lowered, LeakAlloc, LeakOnlySpec.AfterFree, Counted;
    var place := PlaceOf(w, t);
    if step.UpdateTables? && place.InAlloc? {
      NoStaleEntry(w, t);
      AllocKeepsCounted(w.view, place.at, Some(place.stack), step.late, build);
      CountedWhatever(LeakAlloc(w.view, place.at, Some(place.stack), step.late, build), Running);
    } else if step.UpdateTables? {
      FreeKeepsCounted(w.view, place.at);
      FreeKeepsProcess(w.view, place.at);
    } else if step.Exit? {
      CountedWhatever(w.view, Exited(PossibilityOfMemoryLeak));
    }
  }

  lemma FreeKeepsProcess(v: View, ptr: Address)
    ensures LeakOnlySpec.AfterFree(v, ptr).process == v.process
  {
  }

  // ---- every run of every number of threads ----------------------------------------------------------

  datatype Move = Move(thread: Thread, step: Step)

  function RunOf(moves: seq<Move>, build: Build): Option<World> {
    if moves == [] then Some(BEGIN)
    else
      var last := moves[|moves| - 1];
      match RunOf(moves[..|moves| - 1], build)
      case Some(w) =>
        if Possible(w, last.thread, last.step) then Some(After(w, last.thread, last.step, build)) else None
      case None => None
  }

  lemma {:induction false} EveryRunKeeps(moves: seq<Move>, build: Build)
    requires RunOf(moves, build).Some?
    ensures Kept(RunOf(moves, build).value)
  {
    hide MutexKept, ClaimsKept, EntriesKept, Counted, After, Possible;
    if moves == [] {
      BeginKept();
    } else {
      EveryRunKeeps(moves[..|moves| - 1], build);
      var w := RunOf(moves[..|moves| - 1], build).value;
      var last := moves[|moves| - 1];
      StepKeepsMutex(w, last.thread, last.step, build);
      StepKeepsClaims(w, last.thread, last.step, build);
      StepKeepsEntries(w, last.thread, last.step, build);
      StepKeepsCounts(w, last.thread, last.step, build);
    }
  }

  lemma BeginKept()
    ensures Kept(BEGIN)
  {
  }

  /** Whatever the interleaving, and whether or not assertions are compiled in: an address that raw malloc
      returned is not in the table when the thread holds the mutex, so the assertion cannot fail and the
      stale-entry path is not taken; the table's addresses are blocks that the raw allocator has handed
      out; and every stack's count is the number of its entries. */
  lemma AssertNeverFires(moves: seq<Move>, build: Build, t: Thread)
    requires RunOf(moves, build).Some?
    ensures var w := RunOf(moves, build).value;
      && w.view.process != AssertFailed
      && (PlaceOf(w, t).InAlloc? ==> PlaceOf(w, t).at !in w.view.entries)
      && (forall a :: a in w.view.entries ==> a in w.owned)
      && Counted(w.view)
  {
    EveryRunKeeps(moves, build);
    var w := RunOf(moves, build).value;
    if PlaceOf(w, t).InAlloc? { NoStaleEntry(w, t); }
    forall a | a in w.view.entries
      ensures a in w.owned
    {
      EntriesAreOwned(w, a);
    }
  }

  // ---- a library that frees behind the tracker's back ------------------------------------------------

  /** A client's block goes to the raw free directly, without operator delete. */
  function LibraryFreed(w: World, a: Address): World {
    w.(owned := w.owned - {a}, held := w.held - {a})
  }

  /** That leaves the tables right if and only if the block had no entry. */
  lemma LibraryFreeIff(w: World, a: Address)
    requires Kept(w) && a in w.held
    ensures EntriesKept(LibraryFreed(w, a)) <==> a !in w.view.entries
  {
    var x := LibraryFreed(w, a);
    forall t: Thread
      ensures MayHaveEntry(PlaceOf(x, t)) != Some(a) && PlaceOf(x, t) == PlaceOf(w, t)
    {
      if MayHaveEntry(PlaceOf(w, t)) == Some(a) { EntryIsClaim(PlaceOf(w, t), a); }
    }
    forall b: Address | b != a
      ensures EntryKept(x, b)
    {
      assert EntryKept(w, b);
      if t: Thread :| MayHaveEntry(PlaceOf(w, t)) == Some(b) {
        assert MayHaveEntry(PlaceOf(x, t)) == Some(b);
      }
    }
    assert EntryKept(x, a) <==> a !in w.view.entries;
  }

  /** Once the raw allocator hands such a block out again, the next tracked allocation of it fails the
      assertion; a build without assertions replaces the entry, and the counts stay right. */
  lemma StaleEntryOutcome(w: World, t: Thread, late: bool, build: Build)
    requires Counted(w.view) && w.view.process == Running
    requires PlaceOf(w, t).InAlloc? && PlaceOf(w, t).at != 0 && PlaceOf(w, t).at in w.view.entries
    ensures var x := After(w, t, UpdateTables(late), build);
      && (x.view.process == AssertFailed <==> build.asserts)
      && Counted(x.view)
      && (!build.asserts ==> x.view.entries == w.view.entries[PlaceOf(w, t).at := PlaceOf(w, t).stack])
  {
    hide Counted, CountOf, Lowered;
    var place := PlaceOf(w, t);
    AllocKeepsCounted(w.view, place.at, Some(place.stack), late, build);
    CountedWhatever(LeakAlloc(w.view, place.at, Some(place.stack), late, build), Running);
  }
}
