/** The allocation tracker shared by any number of threads, with the stack table as the map it is meant to
    be (line 84 repaired). Raw malloc, taking the mutex, each update of the tables, giving the mutex back,
    raw realloc and raw free are separate steps, and the threads' steps interleave in any order. */
module TrackerThreads {
  import opened Stacks
  import opened TrackerSpec

  type Thread = nat

  /** What a thread does once it has given the mutex back. */
  datatype Next =
    | Return
    | ThenFree(at: Address)
    | ThenUnknownFree(at: Address)
    | ThenUnknownRealloc(at: Address)
    | ThenReport(what: FailureType)

  /** Where a thread is. */
  datatype Place =
    | Idle
    | HasRaw(at: Address, typ: MemoryType, stack: Stack)        // raw malloc returned, mutex not yet taken
    | InAlloc(at: Address, typ: MemoryType, stack: Stack)
    | WantsDelete(ptr: Address, expected: MemoryType, stack: Stack)
    | InDelete(ptr: Address, expected: MemoryType, stack: Stack)
    | WantsRealloc(ptr: Address, stack: Stack)
    | InRealloc(ptr: Address, stack: Stack)
    | Moving(ptr: Address, stack: Stack)                        // verdict passed, raw realloc comes next
    | Moved(ptr: Address, to: Address, stack: Stack)            // old block gone, its entry not yet marked
    | Marked(to: Address, stack: Stack)                         // old entry marked, new one not yet added
    | Unlocking(next: Next)
    | Freeing(at: Address)                                      // entry marked, mutex given back, raw free comes next
    | UnknownFreeing(at: Address)
    | UnknownReallocing(at: Address)
    | Reporting(what: FailureType)

  /** Everything that happened to an address, counted. */
  datatype Tally = Tally(
    registrations: multiset<Address>,
    deleteMarks: multiset<Address>,
    moveMarks: multiset<Address>,
    frees: multiset<Address>,
    deletes: multiset<Address>,
    doubleFrees: multiset<Address>,
    mismatches: multiset<Address>,
    mismatchStacks: multiset<Stack>,       // the allocation stacks of the mismatched blocks
    leakReports: multiset<Address>)

  datatype World = World(
    items: Items,
    counts: Counts,
    owned: set<Address>,
    mutex: Option<Thread>,
    places: map<Thread, Place>,
    tally: Tally,
    process: Process)

  const NOTHING: Tally := Tally(multiset{}, multiset{}, multiset{}, multiset{}, multiset{}, multiset{}, multiset{},
      multiset{}, multiset{})
  const BEGIN: World := World(map[], map[], {}, None, map[], NOTHING, Running)

  function PlaceOf(w: World, t: Thread): Place {
    if t in w.places then w.places[t] else Idle
  }

  function Go(w: World, t: Thread, place: Place): World {
    w.(places := w.places[t := place])
  }

  datatype Step =
    | RawMalloc(at: Address, typ: MemoryType, stack: Stack)     // alloc, calloc and realloc of null begin like this
    | CallDelete(ptr: Address, expected: MemoryType, stack: Stack)
    | CallRealloc(ptr: Address, stack: Stack)
    | TakeMutex
    | UpdateTables
    | RawRealloc(to: Address)
    | GiveMutexBack
    | RawFree
    | UnknownFree(inPool: bool)
    | UnknownRealloc(inPool: bool, to: Address)
    | ContinueAfterReport
    | ExitAfterReport
    | ForeignMalloc(at: Address)                                // memory that is not tracked
    | ForeignFree(at: Address)

  // ---- the steps -----------------------------------------------------------------------------------

  /** The two tables as the sequential calls see them. */
  function Tables(w: World): State {
    State(w.items, w.counts, w.owned, Running)
  }

  /** The world with the tables that a sequential call leaves. */
  function WithTables(w: World, s: State): World {
    w.(items := s.items, counts := s.counts)
  }

  function Add(w: World, at: Address, typ: MemoryType, stack: Stack, limit: nat): World {
    WithTables(w, Register(Tables(w), typ, at, stack, Settings(limit, {})).state).(
      tally := w.tally.(registrations := w.tally.registrations + multiset{at},
                        leakReports := w.tally.leakReports + if AfterAdd(w, stack, limit) == Return then multiset{}
                          else multiset{at}))
  }

  function AfterAdd(w: World, stack: Stack, limit: nat): Next {
    if stack in w.counts && limit > 0 && Raised(w.counts, stack, limit) > limit
      then ThenReport(PossibilityOfMemoryLeak) else Return
  }

  /** The verdict that a delete of a known address got. */
  function Tallied(tally: Tally, ptr: Address, answer: Answer): Tally {
    var y := tally.(deletes := tally.deletes + multiset{ptr});
    match answer
    case Freed => y.(deleteMarks := y.deleteMarks + multiset{ptr})
    case Report(DoubleFree, _) => y.(doubleFrees := y.doubleFrees + multiset{ptr})
    case Report(_, item) =>
      y.(mismatches := y.mismatches + multiset{ptr}, mismatchStacks := y.mismatchStacks + multiset{item.allocTrace})
    case _ => tally
  }

  /** delete's critical section is the sequential call up to the raw free. */
  function UpdateInDelete(w: World, t: Thread, ptr: Address, expected: MemoryType, stack: Stack): World {
    var r := AfterDelete(Tables(w), ptr, expected, stack, true, Settings(0, {}));
    var x := WithTables(w, r.state).(tally := Tallied(w.tally, ptr, r.answer));
    match r.answer
    case Freed => Go(x, t, Unlocking(ThenFree(ptr)))
    case Report(what, _) => Go(x, t, Unlocking(ThenReport(what)))
    case Abort => w.(process := AssertFailed)
    case _ => Go(w, t, Unlocking(ThenUnknownFree(ptr)))
  }

  function UpdateInRealloc(w: World, t: Thread, ptr: Address, stack: Stack): World {
    if ptr !in w.items then Go(w, t, Unlocking(ThenUnknownRealloc(ptr)))
    else if w.items[ptr].typ != Malloc then Go(w, t, Unlocking(ThenReport(BadReallocCreatedByWrongAlloc)))
    else if w.items[ptr].status != Allocated then Go(w, t, Unlocking(ThenReport(BadReallocDeletedMem)))
    else Go(w, t, Moving(ptr, stack))
  }

  function MarkMoved(w: World, t: Thread, ptr: Address, to: Address, stack: Stack): World
    requires ptr in w.items
  {
    if CountOf(w.counts, w.items[ptr].allocTrace) == 0 then w.(process := AssertFailed)
    else
      Go(WithTables(w, MovedOff(Tables(w), ptr, to)).(
           tally := w.tally.(moveMarks := w.tally.moveMarks + multiset{ptr})),
         t, Marked(to, stack))
  }

  function Unlocked(next: Next): Place {
    match next
    case Return => Idle
    case ThenFree(at) => Freeing(at)
    case ThenUnknownFree(at) => UnknownFreeing(at)
    case ThenUnknownRealloc(at) => UnknownReallocing(at)
    case ThenReport(what) => Reporting(what)
  }

  // ---- who holds which block -------------------------------------------------------------------------

  predicate Holds(place: Place) {
    place.InAlloc? || place.InDelete? || place.InRealloc? || place.Moving? || place.Moved? || place.Marked?
      || place.Unlocking?
  }

  /** The raw block that a thread alone is responsible for. */
  function Claim(place: Place): Option<Address> {
    match place
    case HasRaw(at, _, _) => Some(at)
    case InAlloc(at, _, _) => Some(at)
    case Moved(_, to, _) => Some(to)
    case Marked(to, _) => Some(to)
    case Unlocking(ThenFree(at)) => Some(at)
    case Freeing(at) => Some(at)
    case _ => None
  }

  function LiveEntries(items: Items): set<Address> {
    set a | a in items && items[a].status == Allocated
  }

  /** The address whose block is gone while its entry still says Allocated. */
  function Vacated(w: World): set<Address> {
    if w.mutex.Some? && PlaceOf(w, w.mutex.value).Moved? then {PlaceOf(w, w.mutex.value).ptr} else {}
  }

  /** The raw blocks that the table is responsible for. */
  function Tabled(w: World): set<Address> {
    LiveEntries(w.items) - Vacated(w)
  }

  function ThreadClaims(w: World): set<Address> {
    set t | t in w.places && Claim(w.places[t]).Some? :: Claim(w.places[t]).value
  }

  /** The blocks that an unknown free may not touch: those of the table and those in flight. */
  function Claimed(w: World): set<Address> {
    Tabled(w) + ThreadClaims(w)
  }

  // ---- which steps are possible ----------------------------------------------------------------------

  /** The raw allocator hands out only blocks that nobody holds. A client frees or reallocates an address
      that the tracker does not know only if that block is neither tabled nor in flight. */
  predicate Possible(w: World, t: Thread, step: Step) {
    var place := PlaceOf(w, t);
    && w.process == Running
    && match step
       case RawMalloc(at, _, _) => place.Idle? && at != 0 && at !in w.owned
       case CallDelete(ptr, _, _) => place.Idle? && ptr != 0
       case CallRealloc(ptr, _) => place.Idle? && ptr != 0
       case TakeMutex => w.mutex == None && (place.HasRaw? || place.WantsDelete? || place.WantsRealloc?)
       case UpdateTables =>
         place.InAlloc? || (place.InDelete? && place.ptr != 0) || place.InRealloc?
           || (place.Moved? && place.ptr in w.items) || place.Marked?
       case RawRealloc(to) => place.Moving? && (to == place.ptr || (to != 0 && to !in w.owned))
       case GiveMutexBack => place.Unlocking?
       case RawFree => place.Freeing?
       case UnknownFree(inPool) => place.UnknownFreeing? && (inPool || place.at !in Claimed(w))
       case UnknownRealloc(inPool, to) =>
         place.UnknownReallocing? && (inPool || (place.at !in Claimed(w) && (to == place.at || to !in w.owned)))
       case ContinueAfterReport => place.Reporting?
       case ExitAfterReport => place.Reporting?
       case ForeignMalloc(at) => place.Idle? && at != 0 && at !in w.owned
       case ForeignFree(at) => place.Idle? && at !in Claimed(w)
  }

  function Update(w: World, t: Thread, limit: nat): World
    requires Possible(w, t, UpdateTables)
  {
    match PlaceOf(w, t)
    case InAlloc(at, typ, stack) => Go(Add(w, at, typ, stack, limit), t, Unlocking(AfterAdd(w, stack, limit)))
    case InDelete(ptr, expected, stack) => UpdateInDelete(w, t, ptr, expected, stack)
    case InRealloc(ptr, stack) => UpdateInRealloc(w, t, ptr, stack)
    case Moved(ptr, to, stack) => MarkMoved(w, t, ptr, to, stack)
    case Marked(to, stack) => Go(Add(w, to, Malloc, stack, limit), t, Unlocking(AfterAdd(w, stack, limit)))
  }

  function AfterStep(w: World, t: Thread, step: Step, limit: nat): World
    requires Possible(w, t, step)
  {
    var place := PlaceOf(w, t);
    match step
    case RawMalloc(at, typ, stack) => Go(w.(owned := w.owned + {at}), t, HasRaw(at, typ, stack))
    case CallDelete(ptr, expected, stack) => Go(w, t, WantsDelete(ptr, expected, stack))
    case CallRealloc(ptr, stack) => Go(w, t, WantsRealloc(ptr, stack))
    case TakeMutex =>
      Go(w.(mutex := Some(t)), t,
         if place.HasRaw? then InAlloc(place.at, place.typ, place.stack)
         else if place.WantsDelete? then InDelete(place.ptr, place.expected, place.stack)
         else InRealloc(place.ptr, place.stack))
    case UpdateTables => Update(w, t, limit)
    case RawRealloc(to) =>
      if to == place.ptr then Go(w, t, Unlocking(Return))
      else Go(w.(owned := w.owned - {place.ptr} + {to}), t, Moved(place.ptr, to, place.stack))
    case GiveMutexBack => Go(w.(mutex := None), t, Unlocked(place.next))
    case RawFree =>
      Go(w.(owned := w.owned - {place.at}, tally := w.tally.(frees := w.tally.frees + multiset{place.at})), t, Idle)
    case UnknownFree(inPool) => Go(if inPool then w else w.(owned := w.owned - {place.at}), t, Idle)
    case UnknownRealloc(inPool, to) =>
      Go(if inPool || to == 0 then w else w.(owned := w.owned - {place.at} + {to}), t, Idle)
    case ContinueAfterReport => Go(w, t, Idle)
    case ExitAfterReport => Go(w.(process := Exited(place.what)), t, Idle)
    case ForeignMalloc(at) => w.(owned := w.owned + {at})
    case ForeignFree(at) => w.(owned := w.owned - {at})
  }

  // ---- what every step keeps -------------------------------------------------------------------------

  /** Exactly the thread that holds the mutex is inside a critical section. */
  ghost predicate MutexKept(w: World) {
    forall t: Thread :: Holds(PlaceOf(w, t)) <==> w.mutex == Some(t)
  }

  /** A realloc past its verdict still sees a live block of type Malloc. */
  ghost predicate ReallocKept(w: World) {
    && (forall t: Thread :: PlaceOf(w, t).Moving? ==>
        var p := PlaceOf(w, t).ptr; IsLive(w.items, p) && w.items[p].typ == Malloc)
    && (forall t: Thread :: PlaceOf(w, t).Moved? ==> var p := PlaceOf(w, t).ptr;
          IsLive(w.items, p) && w.items[p].typ == Malloc && p != PlaceOf(w, t).to)
  }

  /** Every block has at most one holder, the table or one thread, and each held block is really owned. */
  ghost predicate ClaimsKept(w: World) {
    && 0 !in w.owned
    && Tabled(w) <= w.owned
    && (forall t: Thread :: Claim(PlaceOf(w, t)).Some? ==>
          Claim(PlaceOf(w, t)).value in w.owned && Claim(PlaceOf(w, t)).value !in Tabled(w))
    && (forall t: Thread, u: Thread :: t != u && Claim(PlaceOf(w, t)).Some? ==>
        Claim(PlaceOf(w, t)) != Claim(PlaceOf(w, u)))
  }

  lemma ThreadClaimsAre(w: World, a: Address)
    ensures a in ThreadClaims(w) <==> exists t: Thread :: Claim(PlaceOf(w, t)) == Some(a)
  {
    if t: Thread :| Claim(PlaceOf(w, t)) == Some(a) {
      assert t in w.places;
    }
    if a in ThreadClaims(w) {
      var t :| t in w.places && Claim(w.places[t]).Some? && Claim(w.places[t]).value == a;
      assert Claim(PlaceOf(w, t)) == Some(a);
    }
  }

  lemma DeleteFrames(w: World, t: Thread, ptr: Address, expected: MemoryType, stack: Stack)
    ensures var x := UpdateInDelete(w, t, ptr, expected, stack);
      && x.owned == w.owned && x.mutex == w.mutex
      && (x.places == w.places || (x.places == w.places[t := PlaceOf(x, t)] && Holds(PlaceOf(x, t))))
  {
    hide AfterDelete, Tallied;
  }

  /** An update of the tables leaves the raw allocator, the mutex and the other threads alone. */
  lemma UpdateFrames(w: World, t: Thread, limit: nat)
    requires Possible(w, t, UpdateTables)
    ensures var x := Update(w, t, limit);
      && x.owned == w.owned && x.mutex == w.mutex
      && (forall u: Thread :: u != t ==> PlaceOf(x, u) == PlaceOf(w, u))
      && Holds(PlaceOf(x, t))
  {
    hide CountOf, Register, MovedOff, UpdateInDelete, Claimed, AfterAdd;
    if PlaceOf(w, t).InDelete? {
      DeleteFrames(w, t, PlaceOf(w, t).ptr, PlaceOf(w, t).expected, PlaceOf(w, t).stack);
    }
  }

  lemma OthersStay(w: World, t: Thread, step: Step, limit: nat)
    requires Possible(w, t, step)
    ensures forall u: Thread :: u != t ==> PlaceOf(AfterStep(w, t, step, limit), u) == PlaceOf(w, u)
  {
    hide Update, Claimed;
    if step.UpdateTables? { UpdateFrames(w, t, limit); }
  }

  lemma StepKeepsMutex(w: World, t: Thread, step: Step, limit: nat)
    requires MutexKept(w) && Possible(w, t, step)
    ensures MutexKept(AfterStep(w, t, step, limit))
  {
    hide Update, Claimed;
    assert Holds(PlaceOf(w, t)) <==> w.mutex == Some(t);
    OthersStay(w, t, step, limit);
    if step.UpdateTables? { UpdateFrames(w, t, limit); }
  }

  lemma UpdateKeepsRealloc(w: World, t: Thread, limit: nat)
    requires MutexKept(w) && ReallocKept(w) && Possible(w, t, UpdateTables)
    ensures ReallocKept(Update(w, t, limit))
  {
    hide CountOf, Raised, Lowered, Claimed;
    assert Holds(PlaceOf(w, t)) <==> w.mutex == Some(t);
    forall u: Thread
      ensures Holds(PlaceOf(w, u)) ==> u == t
    {
      assert Holds(PlaceOf(w, u)) <==> w.mutex == Some(u);
    }
    UpdateFrames(w, t, limit);
  }

  lemma StepKeepsRealloc(w: World, t: Thread, step: Step, limit: nat)
    requires MutexKept(w) && ReallocKept(w) && Possible(w, t, step)
    ensures ReallocKept(AfterStep(w, t, step, limit))
  {
    hide Update, Claimed;
    if step.UpdateTables? {
      UpdateKeepsRealloc(w, t, limit);
    } else {
      OthersStay(w, t, step, limit);
    }
  }

  /** The address whose block a step puts under the table's care, and the one it takes from it. */
  function Gained(w: World, t: Thread, step: Step): set<Address> {
    var place := PlaceOf(w, t);
    if step == UpdateTables && place.InAlloc? then {place.at}
    else if step == UpdateTables && place.Marked? then {place.to}
    else {}
  }

  function Lost(w: World, t: Thread, step: Step): set<Address> {
    var place := PlaceOf(w, t);
    if step == UpdateTables && place.InDelete? && Freeable(w, place.ptr, place.expected) then {place.ptr}
    else if step.RawRealloc? && place.Moving? && step.to != place.ptr then {place.ptr}
    else {}
  }

  predicate Freeable(w: World, ptr: Address, expected: MemoryType) {
    IsLive(w.items, ptr) && CountOf(w.counts, w.items[ptr].allocTrace) != 0 && w.items[ptr].typ == expected
  }

  /** The cases of a delete's update of the tables. */
  lemma DeleteCases(w: World, t: Thread, limit: nat)
    requires Possible(w, t, UpdateTables) && PlaceOf(w, t).InDelete?
    ensures
      var x, place := Update(w, t, limit), PlaceOf(w, t);
      var ptr, y := place.ptr, w.tally.(deletes := w.tally.deletes + multiset{place.ptr});
      && x.tally.leakReports == w.tally.leakReports
      && (ptr !in w.items ==>
            SameTables(x, Tables(w)) && x.tally == w.tally && x.process == Running
            && PlaceOf(x, t) == Unlocking(ThenUnknownFree(ptr)))
      && (ptr in w.items && !IsLive(w.items, ptr) ==>
            SameTables(x, Tables(w)) && x.process == Running
            && x.tally == y.(doubleFrees := y.doubleFrees + multiset{ptr})
            && PlaceOf(x, t) == Unlocking(ThenReport(DoubleFree)))
      && (IsLive(w.items, ptr) && CountOf(w.counts, w.items[ptr].allocTrace) == 0 ==>
            x == w.(process := AssertFailed))
      && (IsLive(w.items, ptr) && CountOf(w.counts, w.items[ptr].allocTrace) != 0 ==>
            && x.process == Running && x.counts == Lowered(w.counts, w.items[ptr].allocTrace)
            && (w.items[ptr].typ != place.expected ==>
                  x.items == w.items && PlaceOf(x, t) == Unlocking(ThenReport(FreeMissmatch))
                  && x.tally == y.(mismatches := y.mismatches + multiset{ptr},
                                   mismatchStacks := y.mismatchStacks + multiset{w.items[ptr].allocTrace}))
            && (w.items[ptr].typ == place.expected ==>
                  x.items == w.items[ptr := w.items[ptr].(status := Deallocated, deallocTrace := Some(place.stack))]
                  && PlaceOf(x, t) == Unlocking(ThenFree(ptr))
                  && x.tally == y.(deleteMarks := y.deleteMarks + multiset{ptr})))
  {
    hide Lowered, Claimed;
  }

  ghost predicate SameTables(w: World, s: State) {
    w.items == s.items && w.counts == s.counts
  }

  lemma TabledAfterDelete(w: World, t: Thread, limit: nat)
    requires MutexKept(w) && Possible(w, t, UpdateTables) && PlaceOf(w, t).InDelete?
    ensures Tabled(Update(w, t, limit)) == Tabled(w) + Gained(w, t, UpdateTables) - Lost(w, t, UpdateTables)
  {
    hide Update, CountOf, Lowered, Possible;
    assert Holds(PlaceOf(w, t)) <==> w.mutex == Some(t);
    UpdateFrames(w, t, limit);
    DeleteCases(w, t, limit);
  }

  lemma TabledAfterOther(w: World, t: Thread, limit: nat)
    requires MutexKept(w) && ReallocKept(w) && Possible(w, t, UpdateTables) && !PlaceOf(w, t).InDelete?
    ensures Tabled(Update(w, t, limit)) == Tabled(w) + Gained(w, t, UpdateTables) - Lost(w, t, UpdateTables)
  {
    hide CountOf, Raised, Lowered, Claimed, UpdateInDelete;
    assert Holds(PlaceOf(w, t)) <==> w.mutex == Some(t);
  }

  lemma TabledAfterUpdate(w: World, t: Thread, limit: nat)
    requires MutexKept(w) && ReallocKept(w) && Possible(w, t, UpdateTables)
    ensures Tabled(Update(w, t, limit)) == Tabled(w) + Gained(w, t, UpdateTables) - Lost(w, t, UpdateTables)
  {
    hide *;
    if PlaceOf(w, t).InDelete? { TabledAfterDelete(w, t, limit); } else { TabledAfterOther(w, t, limit); }
  }

  lemma TabledAfter(w: World, t: Thread, step: Step, limit: nat)
    requires MutexKept(w) && ReallocKept(w) && Possible(w, t, step)
    ensures Tabled(AfterStep(w, t, step, limit)) == Tabled(w) + Gained(w, t, step) - Lost(w, t, step)
  {
    hide Update, Claimed, LiveEntries;
    if step.UpdateTables? {
      TabledAfterUpdate(w, t, limit);
    } else {
      assert Holds(PlaceOf(w, t)) <==> w.mutex == Some(t);
      OthersStay(w, t, step, limit);
      assert AfterStep(w, t, step, limit).items == w.items;
      SameVacated(w, t, step, limit);
    }
  }

  lemma SameVacated(w: World, t: Thread, step: Step, limit: nat)
    requires MutexKept(w) && ReallocKept(w) && Possible(w, t, step) && !step.UpdateTables?
    ensures Vacated(AfterStep(w, t, step, limit)) == Vacated(w) + Lost(w, t, step)
  {
    hide Update, Claimed, LiveEntries;
    var x := AfterStep(w, t, step, limit);
    assert Holds(PlaceOf(w, t)) <==> w.mutex == Some(t);
    OthersStay(w, t, step, limit);
    if w.mutex.Some? {
      assert Holds(PlaceOf(w, w.mutex.value));
    }
  }

  /** A block that a step gives back to the raw allocator is nobody else's. */
  lemma OthersStayOwned(w: World, t: Thread, step: Step, limit: nat, a: Address)
    requires MutexKept(w) && ReallocKept(w) && ClaimsKept(w) && Possible(w, t, step)
    requires a in w.owned && a !in AfterStep(w, t, step, limit).owned
    ensures a !in Tabled(AfterStep(w, t, step, limit))
    ensures forall u: Thread :: u != t ==> Claim(PlaceOf(w, u)) != Some(a)
  {
    hide Update, Vacated, LiveEntries;
    TabledAfter(w, t, step, limit);
    ThreadClaimsAre(w, a);
    if step.UpdateTables? {
      UpdateFrames(w, t, limit);
    } else if step.RawRealloc? {
      GoneIsTabled(w, t);
    }
  }

  lemma GoneIsTabled(w: World, t: Thread)
    requires MutexKept(w) && ReallocKept(w) && PlaceOf(w, t).Moving?
    ensures PlaceOf(w, t).ptr in Tabled(w)
  {
    assert Holds(PlaceOf(w, t)) <==> w.mutex == Some(t);
  }

  lemma NewClaimAfterUpdate(w: World, t: Thread, limit: nat, a: Address)
    requires MutexKept(w) && ReallocKept(w) && ClaimsKept(w) && Possible(w, t, UpdateTables)
    requires Claim(PlaceOf(Update(w, t, limit), t)) == Some(a)
    ensures (Claim(PlaceOf(w, t)) == Some(a) && a !in Gained(w, t, UpdateTables))
      || (Lost(w, t, UpdateTables) == {a} && a in Tabled(w))
  {
    hide CountOf, Raised, Lowered, Claimed;
    assert Holds(PlaceOf(w, t)) <==> w.mutex == Some(t);
  }

  lemma NewClaim(w: World, t: Thread, step: Step, limit: nat, a: Address)
    requires MutexKept(w) && ReallocKept(w) && ClaimsKept(w) && Possible(w, t, step)
    requires Claim(PlaceOf(AfterStep(w, t, step, limit), t)) == Some(a)
    ensures a in AfterStep(w, t, step, limit).owned && a !in Tabled(AfterStep(w, t, step, limit))
    ensures forall u: Thread :: u != t ==> Claim(PlaceOf(w, u)) != Some(a)
  {
    hide Update, Tabled, Claimed;
    TabledAfter(w, t, step, limit);
    if step.UpdateTables? {
      NewClaimAfterUpdate(w, t, limit, a);
      UpdateFrames(w, t, limit);
    }
  }

  lemma GainedWasClaimed(w: World, t: Thread, step: Step, limit: nat, a: Address)
    requires Possible(w, t, step) && a in Gained(w, t, step)
    ensures Claim(PlaceOf(w, t)) == Some(a)
    ensures AfterStep(w, t, step, limit).owned == w.owned
  {
    hide Update, Claimed;
    UpdateFrames(w, t, limit);
  }

  lemma NullStaysUnowned(w: World, t: Thread, step: Step, limit: nat)
    requires 0 !in w.owned && Possible(w, t, step)
    ensures 0 !in AfterStep(w, t, step, limit).owned
  {
    hide Update, Claimed;
    if step.UpdateTables? { UpdateFrames(w, t, limit); }
  }

  lemma StepKeepsClaims(w: World, t: Thread, step: Step, limit: nat)
    requires MutexKept(w) && ReallocKept(w) && ClaimsKept(w) && Possible(w, t, step)
    ensures ClaimsKept(AfterStep(w, t, step, limit))
  {
    hide AfterStep, Tabled, Possible, Claim, Gained, Lost;
    var x := AfterStep(w, t, step, limit);
    NullStaysUnowned(w, t, step, limit);
    TabledAfter(w, t, step, limit);
    OthersStay(w, t, step, limit);
    forall a | a in w.owned && a !in x.owned {
      OthersStayOwned(w, t, step, limit, a);
    }
    forall a | a in Gained(w, t, step) {
      GainedWasClaimed(w, t, step, limit, a);
    }
    if Claim(PlaceOf(x, t)).Some? {
      NewClaim(w, t, step, limit, Claim(PlaceOf(x, t)).value);
    }
  }

  // ---- counting ------------------------------------------------------------------------------------

  /** The block whose raw free a delete still owes. */
  function Owes(place: Place): Option<Address> {
    match place
    case Unlocking(ThenFree(at)) => Some(at)
    case Freeing(at) => Some(at)
    case _ => None
  }

  ghost predicate Owed(w: World, a: Address) {
    exists t: Thread :: Owes(PlaceOf(w, t)) == Some(a)
  }

  ghost function One(b: bool): nat {
    if b then 1 else 0
  }

  /** Every registration of an address is used up by a delete, by a move, or still live; every deleting
      mark is followed by one raw free or still owes it; every delete that found an entry got a verdict. */
  ghost predicate Balanced(w: World, a: Address) {
    var y := w.tally;
    && y.registrations[a] == y.deleteMarks[a] + y.moveMarks[a] + One(IsLive(w.items, a))
    && y.deleteMarks[a] == y.frees[a] + One(Owed(w, a))
    && y.deletes[a] == y.deleteMarks[a] + y.doubleFrees[a] + y.mismatches[a]
    && (a in w.items <==> y.registrations[a] > 0)
  }

  ghost predicate TallyKept(w: World) {
    forall a: Address :: Balanced(w, a)
  }

  /** An address that is about to be registered has no entry, or a dead one. */
  lemma OverwritesOnlyDead(w: World, t: Thread, a: Address)
    requires MutexKept(w) && ClaimsKept(w) && Claim(PlaceOf(w, t)) == Some(a)
      && (PlaceOf(w, t).InAlloc? || PlaceOf(w, t).Marked?)
    ensures !IsLive(w.items, a)
  {
    assert Holds(PlaceOf(w, t)) <==> w.mutex == Some(t);
  }

  lemma OwedElsewhere(w: World, x: World, t: Thread, a: Address)
    requires forall u: Thread :: u != t ==> PlaceOf(x, u) == PlaceOf(w, u)
    requires Owes(PlaceOf(x, t)) == Owes(PlaceOf(w, t))
      || (Owes(PlaceOf(x, t)) != Some(a) && Owes(PlaceOf(w, t)) != Some(a))
    ensures Owed(x, a) == Owed(w, a)
  {
    if u: Thread :| Owes(PlaceOf(w, u)) == Some(a) {
      assert Owes(PlaceOf(x, u)) == Some(a);
    }
    if u: Thread :| Owes(PlaceOf(x, u)) == Some(a) {
      assert Owes(PlaceOf(w, u)) == Some(a);
    }
  }

  lemma OwesIsClaim(w: World, a: Address)
    requires ClaimsKept(w) && Owed(w, a)
    ensures a in w.owned && a !in Tabled(w)
  {
    var u: Thread :| Owes(PlaceOf(w, u)) == Some(a);
    assert Claim(PlaceOf(w, u)) == Some(a);
  }

  lemma AddKeepsBalance(w: World, t: Thread, limit: nat, a: Address)
    requires MutexKept(w) && ClaimsKept(w) && Possible(w, t, UpdateTables) && Balanced(w, a)
    requires PlaceOf(w, t).InAlloc? || PlaceOf(w, t).Marked?
    ensures Balanced(Update(w, t, limit), a)
  {
    hide CountOf, Raised, Lowered, Claimed, Tabled;
    var x := Update(w, t, limit);
    UpdateFrames(w, t, limit);
    OverwritesOnlyDead(w, t, Claim(PlaceOf(w, t)).value);
    OwedElsewhere(w, x, t, a);
  }

  lemma OwedAfterDelete(w: World, t: Thread, limit: nat, a: Address)
    requires MutexKept(w) && ClaimsKept(w) && Possible(w, t, UpdateTables) && PlaceOf(w, t).InDelete?
    ensures var ptr, freed := PlaceOf(w, t).ptr, Freeable(w, PlaceOf(w, t).ptr, PlaceOf(w, t).expected);
      && One(Owed(Update(w, t, limit), a)) == One(Owed(w, a)) + One(freed && ptr == a)
  {
    hide CountOf, Raised, Lowered, Claimed, Tabled, Holds;
    var x := Update(w, t, limit);
    UpdateFrames(w, t, limit);
    if Owes(PlaceOf(x, t)) == Some(a) {
      NotOwedWhileLive(w, t, a);
      assert Owed(x, a);
    } else {
      OwedElsewhere(w, x, t, a);
    }
  }

  /** What a delete's update of the tables does to the account of one address. */
  lemma DeleteTally(w: World, t: Thread, limit: nat, a: Address)
    requires Possible(w, t, UpdateTables) && PlaceOf(w, t).InDelete?
    ensures
      var x, place, y, z := Update(w, t, limit), PlaceOf(w, t), w.tally, Update(w, t, limit).tally;
      var ptr := place.ptr;
      var known := ptr in w.items && ptr == a && x.process != AssertFailed;
      var live := known && IsLive(w.items, a);
      && z.registrations == y.registrations && z.moveMarks == y.moveMarks && z.frees == y.frees
      && z.deletes[a] == y.deletes[a] + One(known)
      && z.doubleFrees[a] == y.doubleFrees[a] + One(known && !live)
      && z.mismatches[a] == y.mismatches[a] + One(live && w.items[a].typ != place.expected)
      && z.deleteMarks[a] == y.deleteMarks[a] + One(live && w.items[a].typ == place.expected)
      && One(IsLive(w.items, a)) == One(IsLive(x.items, a)) + One(live && w.items[a].typ == place.expected)
      && (a in x.items <==> a in w.items)
      && (Freeable(w, ptr, place.expected) && ptr == a <==> live && w.items[a].typ == place.expected)
  {
    hide Update, Possible, CountOf;
    DeleteCases(w, t, limit);
  }

  lemma DeleteKeepsBalance(w: World, t: Thread, limit: nat, a: Address)
    requires MutexKept(w) && ClaimsKept(w) && Possible(w, t, UpdateTables) && Balanced(w, a)
    requires PlaceOf(w, t).InDelete?
    ensures Balanced(Update(w, t, limit), a)
  {
    hide Update, Owed, Possible, MutexKept, ClaimsKept, IsLive, Freeable;
    DeleteTally(w, t, limit, a);
    OwedAfterDelete(w, t, limit, a);
  }

  lemma NotOwedWhileLive(w: World, t: Thread, a: Address)
    requires MutexKept(w) && ClaimsKept(w) && PlaceOf(w, t).InDelete? && IsLive(w.items, a)
    ensures !Owed(w, a)
  {
    assert Holds(PlaceOf(w, t)) <==> w.mutex == Some(t);
    if Owed(w, a) { OwesIsClaim(w, a); }
  }

  /** What a realloc's update of the tables does to the account of one address. */
  lemma ReallocTally(w: World, t: Thread, limit: nat, a: Address)
    requires ReallocKept(w) && Possible(w, t, UpdateTables)
    requires PlaceOf(w, t).InRealloc? || PlaceOf(w, t).Moved?
    ensures
      var x, place := Update(w, t, limit), PlaceOf(w, t);
      var marked := place.Moved? && place.ptr == a && x.process != AssertFailed;
      && Owes(PlaceOf(x, t)) == Owes(place)
      && x.tally == w.tally.(moveMarks := x.tally.moveMarks)
      && x.tally.moveMarks[a] == w.tally.moveMarks[a] + One(marked)
      && One(IsLive(w.items, a)) == One(IsLive(x.items, a)) + One(marked)
      && (a in x.items <==> a in w.items)
  {
    hide CountOf, Raised, Lowered, Claimed;
  }

  lemma ReallocKeepsBalance(w: World, t: Thread, limit: nat, a: Address)
    requires ReallocKept(w) && Possible(w, t, UpdateTables) && Balanced(w, a)
    requires PlaceOf(w, t).InRealloc? || PlaceOf(w, t).Moved?
    ensures Balanced(Update(w, t, limit), a)
  {
    hide Update, Claimed, Owes, Owed, IsLive;
    ReallocTally(w, t, limit, a);
    UpdateFrames(w, t, limit);
    OwedElsewhere(w, Update(w, t, limit), t, a);
  }

  lemma FreeKeepsBalance(w: World, t: Thread, limit: nat, a: Address)
    requires ClaimsKept(w) && Possible(w, t, RawFree) && Balanced(w, a)
    ensures Balanced(AfterStep(w, t, RawFree, limit), a)
  {
    hide Claimed, Tabled, Holds;
    var x := AfterStep(w, t, RawFree, limit);
    var place := PlaceOf(w, t);
    OthersStay(w, t, RawFree, limit);
    if place.at == a {
      assert Owes(place) == Some(a) && Claim(place) == Some(a);
      forall u: Thread
        ensures Owes(PlaceOf(x, u)) != Some(a)
      {
        assert u != t ==> Claim(PlaceOf(w, u)) != Some(a);
      }
    } else {
      OwedElsewhere(w, x, t, a);
    }
  }

  lemma StepKeepsBalance(w: World, t: Thread, step: Step, limit: nat, a: Address)
    requires MutexKept(w) && ReallocKept(w) && ClaimsKept(w) && Possible(w, t, step) && Balanced(w, a)
    ensures Balanced(AfterStep(w, t, step, limit), a)
  {
    hide Update, Claimed, Balanced, Holds;
    if step.UpdateTables? {
      match PlaceOf(w, t)
      case InDelete(_, _, _) => DeleteKeepsBalance(w, t, limit, a);
      case InRealloc(_, _) => ReallocKeepsBalance(w, t, limit, a);
      case Moved(_, _, _) => ReallocKeepsBalance(w, t, limit, a);
      case _ => AddKeepsBalance(w, t, limit, a);
    } else if step.RawFree? {
      FreeKeepsBalance(w, t, limit, a);
    } else {
      QuietStepKeepsBalance(w, t, step, limit, a);
    }
  }

  lemma QuietStep(w: World, t: Thread, step: Step, limit: nat)
    requires Possible(w, t, step) && !step.UpdateTables? && !step.RawFree?
    ensures var x := AfterStep(w, t, step, limit);
      x.items == w.items && x.tally == w.tally && Owes(PlaceOf(x, t)) == Owes(PlaceOf(w, t))
  {
    hide Update, Claimed;
  }

  lemma QuietStepKeepsBalance(w: World, t: Thread, step: Step, limit: nat, a: Address)
    requires Possible(w, t, step) && Balanced(w, a) && !step.UpdateTables? && !step.RawFree?
    ensures Balanced(AfterStep(w, t, step, limit), a)
  {
    hide AfterStep, Possible, Owed, Owes;
    QuietStep(w, t, step, limit);
    OthersStay(w, t, step, limit);
    OwedElsewhere(w, AfterStep(w, t, step, limit), t, a);
  }

  /** No delete owes the raw free of an address that a realloc has just vacated. */
  ghost predicate VacatedKept(w: World) {
    forall a :: a in Vacated(w) ==> !Owed(w, a)
  }

  lemma NewOwner(w: World, t: Thread, step: Step, limit: nat)
    requires Possible(w, t, step)
    ensures var before, after := Owes(PlaceOf(w, t)), Owes(PlaceOf(AfterStep(w, t, step, limit), t));
      after == None || after == before || PlaceOf(w, t).InDelete?
  {
    hide CountOf, Raised, Lowered, Claimed;
  }

  lemma StepKeepsVacated(w: World, t: Thread, step: Step, limit: nat)
    requires MutexKept(w) && ReallocKept(w) && ClaimsKept(w) && VacatedKept(w) && Possible(w, t, step)
    ensures VacatedKept(AfterStep(w, t, step, limit))
  {
    hide Update, Claimed, Tabled;
    var x := AfterStep(w, t, step, limit);
    StepKeepsMutex(w, t, step, limit);
    OthersStay(w, t, step, limit);
    NewOwner(w, t, step, limit);
    forall a | a in Vacated(x)
      ensures !Owed(x, a)
    {
      var h := x.mutex.value;
      assert Holds(PlaceOf(x, h));
      if h == t {
        MovedFrom(w, t, step, limit);
        assert Holds(PlaceOf(w, t)) <==> w.mutex == Some(t);
        if PlaceOf(w, t).Moving? {
          if Owed(w, a) { OwesIsClaim(w, a); }
          GoneIsTabled(w, t);
        } else {
          assert a in Vacated(w);
        }
      } else {
        assert PlaceOf(w, h) == PlaceOf(x, h);
        assert w.mutex == Some(h) && !Holds(PlaceOf(w, t));
        assert a in Vacated(w);
      }
      assert !Owed(w, a);
      forall u: Thread
        ensures Owes(PlaceOf(x, u)) != Some(a)
      {
        assert Owes(PlaceOf(w, u)) != Some(a);
      }
    }
  }

  lemma MovedFrom(w: World, t: Thread, step: Step, limit: nat)
    requires Possible(w, t, step) && PlaceOf(AfterStep(w, t, step, limit), t).Moved?
    ensures (PlaceOf(w, t).Moving? && PlaceOf(AfterStep(w, t, step, limit), t).ptr == PlaceOf(w, t).ptr)
         || PlaceOf(AfterStep(w, t, step, limit), t) == PlaceOf(w, t)
  {
    hide CountOf, Raised, Lowered, Claimed;
  }

  // ---- the counts of live allocations ----------------------------------------------------------------

  /** Every live entry is counted, except for one of its stack for every mismatch that was reported on that
      stack; and an assertion fails only after a mismatch. */
  ghost predicate CountsKept(w: World) {
    && (forall stack :: Counted(w, stack))
    && |w.tally.mismatches| == |w.tally.mismatchStacks|
    && (w.process == AssertFailed ==> w.tally.mismatchStacks != multiset{})
  }

  ghost predicate Counted(w: World, stack: Stack) {
    && |Live(w.items, stack)| == CountOf(w.counts, stack) + w.tally.mismatchStacks[stack]
    && (stack in w.counts ==> w.counts[stack] > 0)
  }

  lemma AddKeepsCounted(w: World, at: Address, typ: MemoryType, stack: Stack, limit: nat, other: Stack)
    requires limit > 0 && Counted(w, other) && Counted(w, stack) && !IsLive(w.items, at)
    ensures Counted(Add(w, at, typ, stack, limit), other)
  {
    LiveAfterUpdate(w.items, at, Item(typ, Allocated, at, stack, None), other);
    assert at !in Live(w.items, other);
  }

  /** Marking a live entry goes with lowering its stack's count. */
  lemma ReleaseKeepsCounted(w: World, x: World, at: Address, trace: Option<Stack>, other: Stack)
    requires Counted(w, other) && IsLive(w.items, at) && CountOf(w.counts, w.items[at].allocTrace) != 0
    requires x.items == w.items[at := w.items[at].(status := Deallocated, deallocTrace := trace)]
    requires x.counts == Lowered(w.counts, w.items[at].allocTrace)
    requires x.tally.mismatchStacks == w.tally.mismatchStacks
    ensures Counted(x, other)
  {
    LiveAfterUpdate(w.items, at, x.items[at], other);
    assert at in Live(w.items, other) <==> w.items[at].allocTrace == other;
  }

  lemma MismatchKeepsCounted(w: World, x: World, stack: Stack, other: Stack)
    requires Counted(w, other) && CountOf(w.counts, stack) != 0
    requires x.items == w.items && x.counts == Lowered(w.counts, stack)
    requires x.tally.mismatchStacks == w.tally.mismatchStacks + multiset{stack}
    ensures Counted(x, other)
  {
  }

  /** The decrement's assertion fails exactly when every live entry of the stack was mismatched. */
  lemma UncountedIff(w: World, at: Address)
    requires IsLive(w.items, at) && Counted(w, w.items[at].allocTrace)
    ensures
      var stack := w.items[at].allocTrace;
      && (CountOf(w.counts, stack) == 0 <==> w.tally.mismatchStacks[stack] == |Live(w.items, stack)|)
      && (CountOf(w.counts, stack) == 0 ==> w.tally.mismatchStacks != multiset{})
  {
    assert at in Live(w.items, w.items[at].allocTrace);
  }

  lemma UpdateKeepsCounted(w: World, t: Thread, limit: nat, other: Stack)
    requires limit > 0 && MutexKept(w) && ReallocKept(w) && ClaimsKept(w) && CountsKept(w)
      && Possible(w, t, UpdateTables)
    ensures Counted(Update(w, t, limit), other)
  {
    hide Raised, Lowered, Claimed, Tabled, Live, Holds, CountOf, Counted, Add, UpdateInDelete, ClaimsKept, MutexKept;
    assert Counted(w, other);
    var x := Update(w, t, limit);
    match PlaceOf(w, t)
    case InAlloc(at, typ, stack) =>
      OverwritesOnlyDead(w, t, at);
      assert Counted(w, stack);
      AddKeepsCounted(w, at, typ, stack, limit, other);
      SameCounted(Add(w, at, typ, stack, limit), x, other);
    case Marked(to, stack) =>
      OverwritesOnlyDead(w, t, to);
      assert Counted(w, stack);
      AddKeepsCounted(w, to, Malloc, stack, limit, other);
      SameCounted(Add(w, to, Malloc, stack, limit), x, other);
    case InDelete(ptr, expected, stack) =>
      DeleteCases(w, t, limit);
      if IsLive(w.items, ptr) && CountOf(w.counts, w.items[ptr].allocTrace) != 0 {
        if w.items[ptr].typ == expected {
          ReleaseKeepsCounted(w, x, ptr, Some(stack), other);
        } else {
          MismatchKeepsCounted(w, x, w.items[ptr].allocTrace, other);
        }
      } else {
        SameCounted(w, x, other);
      }
    case Moved(ptr, _, _) =>
      if CountOf(w.counts, w.items[ptr].allocTrace) != 0 {
        ReleaseKeepsCounted(w, x, ptr, w.items[ptr].deallocTrace, other);
      } else {
        SameCounted(w, x, other);
      }
    case InRealloc(_, _) => SameCounted(w, x, other);
  }

  lemma SameCounted(w: World, x: World, stack: Stack)
    requires Counted(w, stack)
    requires x.items == w.items && x.counts == w.counts && x.tally.mismatchStacks == w.tally.mismatchStacks
    ensures Counted(x, stack)
  {
  }

  /** Which updates fail an assertion, and how they count mismatches. */
  ghost predicate FailsAsCounted(w: World, t: Thread, x: World) {
    var place := PlaceOf(w, t);
    && (x.process == AssertFailed <==>
        (place.InDelete? || place.Moved?) && IsLive(w.items, place.ptr)
          && var stack := w.items[place.ptr].allocTrace; w.tally.mismatchStacks[stack] == |Live(w.items, stack)|)
    && |x.tally.mismatches| == |x.tally.mismatchStacks|
    && (x.process == AssertFailed ==> x.tally.mismatchStacks != multiset{})
  }

  lemma DeleteFailsIff(w: World, t: Thread, limit: nat)
    requires CountsKept(w) && Possible(w, t, UpdateTables) && PlaceOf(w, t).InDelete?
    ensures FailsAsCounted(w, t, Update(w, t, limit))
  {
    hide Update, Lowered, Live, Counted, CountOf;
    var place := PlaceOf(w, t);
    DeleteCases(w, t, limit);
    if IsLive(w.items, place.ptr) {
      assert Counted(w, w.items[place.ptr].allocTrace);
      UncountedIff(w, place.ptr);
    }
  }

  lemma OtherFailsIff(w: World, t: Thread, limit: nat)
    requires ReallocKept(w) && CountsKept(w) && Possible(w, t, UpdateTables) && !PlaceOf(w, t).InDelete?
    ensures FailsAsCounted(w, t, Update(w, t, limit))
  {
    hide Raised, Lowered, Claimed, Live, Counted, CountOf, UpdateInDelete;
    var place := PlaceOf(w, t);
    if place.Moved? {
      assert Counted(w, w.items[place.ptr].allocTrace);
      UncountedIff(w, place.ptr);
    }
  }

  lemma UpdateFailsIff(w: World, t: Thread, limit: nat)
    requires ReallocKept(w) && CountsKept(w) && Possible(w, t, UpdateTables)
    ensures FailsAsCounted(w, t, Update(w, t, limit))
  {
    hide *;
    if PlaceOf(w, t).InDelete? { DeleteFailsIff(w, t, limit); } else { OtherFailsIff(w, t, limit); }
  }

  lemma UpdateKeepsCounts(w: World, t: Thread, limit: nat)
    requires limit > 0 && MutexKept(w) && ReallocKept(w) && ClaimsKept(w) && CountsKept(w)
      && Possible(w, t, UpdateTables)
    ensures CountsKept(Update(w, t, limit))
  {
    hide Update, Counted, MutexKept, ReallocKept, ClaimsKept, Possible;
    forall other {
      UpdateKeepsCounted(w, t, limit, other);
    }
    UpdateFailsIff(w, t, limit);
  }

  lemma OtherStepsLeaveTables(w: World, t: Thread, step: Step, limit: nat)
    requires Possible(w, t, step) && !step.UpdateTables?
    ensures var x := AfterStep(w, t, step, limit);
      x.items == w.items && x.counts == w.counts && x.tally.mismatches == w.tally.mismatches
        && x.tally.mismatchStacks == w.tally.mismatchStacks && x.tally.leakReports == w.tally.leakReports
          && x.process != AssertFailed
  {
    hide Claimed, Update, Unlocked, Raised, Lowered, CountOf;
  }

  lemma StepKeepsCounts(w: World, t: Thread, step: Step, limit: nat)
    requires limit > 0 && MutexKept(w) && ReallocKept(w) && ClaimsKept(w) && CountsKept(w) && Possible(w, t, step)
    ensures CountsKept(AfterStep(w, t, step, limit))
  {
    hide Update, Possible, CountOf;
    if step.UpdateTables? {
      UpdateKeepsCounts(w, t, limit);
    } else {
      hide AfterStep, Counted;
      OtherStepsLeaveTables(w, t, step, limit);
      forall stack
        ensures Counted(AfterStep(w, t, step, limit), stack)
      {
        assert Counted(w, stack);
        SameCounted(w, AfterStep(w, t, step, limit), stack);
      }
    }
  }

  /** Until some allocation reports a leak, no count exceeds the limit. */
  ghost predicate LimitKept(w: World, limit: nat) {
    w.tally.leakReports == multiset{} ==> WithinLimit(Tables(w), limit)
  }

  lemma AddKeepsLimit(w: World, at: Address, typ: MemoryType, stack: Stack, limit: nat)
    requires limit > 0 && LimitKept(w, limit)
    ensures LimitKept(Add(w, at, typ, stack, limit), limit)
  {
    if AfterAdd(w, stack, limit) != Return {
      assert at in Add(w, at, typ, stack, limit).tally.leakReports;
    }
  }

  lemma LoweringKeepsLimit(w: World, x: World, stack: Stack, limit: nat)
    requires LimitKept(w, limit) && CountOf(w.counts, stack) != 0
    requires x.counts == Lowered(w.counts, stack) && x.tally.leakReports == w.tally.leakReports
    ensures LimitKept(x, limit)
  {
    hide Lowered;
    if w.tally.leakReports == multiset{} { LoweredStaysWithin(w.counts, stack, limit); }
  }

  lemma UpdateKeepsLimit(w: World, t: Thread, limit: nat)
    requires limit > 0 && LimitKept(w, limit) && Possible(w, t, UpdateTables)
    ensures LimitKept(Update(w, t, limit), limit)
  {
    hide CountOf, Raised, Lowered, Claimed, Add, AfterAdd, UpdateInDelete, WithinLimit, Holds;
    match PlaceOf(w, t)
    case InAlloc(at, typ, stack) => AddKeepsLimit(w, at, typ, stack, limit);
    case Marked(to, stack) => AddKeepsLimit(w, to, Malloc, stack, limit);
    case InDelete(ptr, _, _) =>
      DeleteCases(w, t, limit);
      if IsLive(w.items, ptr) && CountOf(w.counts, w.items[ptr].allocTrace) != 0 {
        LoweringKeepsLimit(w, Update(w, t, limit), w.items[ptr].allocTrace, limit);
      } else {
        SameCountsKeepLimit(w, Update(w, t, limit), limit);
      }
    case Moved(ptr, _, _) =>
      if CountOf(w.counts, w.items[ptr].allocTrace) != 0 {
        LoweringKeepsLimit(w, Update(w, t, limit), w.items[ptr].allocTrace, limit);
      } else {
        SameCountsKeepLimit(w, Update(w, t, limit), limit);
      }
    case InRealloc(_, _) => SameCountsKeepLimit(w, Update(w, t, limit), limit);
  }

  lemma SameCountsKeepLimit(w: World, x: World, limit: nat)
    requires LimitKept(w, limit) && x.counts == w.counts && x.tally.leakReports == w.tally.leakReports
    ensures LimitKept(x, limit)
  {
  }

  lemma StepKeepsLimit(w: World, t: Thread, step: Step, limit: nat)
    requires limit > 0 && LimitKept(w, limit) && Possible(w, t, step)
    ensures LimitKept(AfterStep(w, t, step, limit), limit)
  {
    hide Update, Possible, LimitKept;
    if step.UpdateTables? {
      UpdateKeepsLimit(w, t, limit);
    } else {
      hide AfterStep;
      OtherStepsLeaveTables(w, t, step, limit);
      SameCountsKeepLimit(w, AfterStep(w, t, step, limit), limit);
    }
  }

  // ---- every run of every number of threads ----------------------------------------------------------

  datatype Move = Move(thread: Thread, step: Step)

  /** The world after the moves, if each of them was possible when it came. */
  function RunFrom(w: World, moves: seq<Move>, limit: nat): Option<World> {
    if moves == [] then Some(w)
    else
      var last := moves[|moves| - 1];
      match RunFrom(w, moves[..|moves| - 1], limit)
      case Some(x) =>
        if Possible(x, last.thread, last.step) then Some(AfterStep(x, last.thread, last.step, limit)) else None
      case None => None
  }

  function RunOf(moves: seq<Move>, limit: nat): Option<World> {
    RunFrom(BEGIN, moves, limit)
  }

  ghost predicate Kept(w: World, limit: nat) {
    MutexKept(w) && ReallocKept(w) && ClaimsKept(w) && VacatedKept(w) && TallyKept(w)
    && (limit > 0 ==> CountsKept(w) && LimitKept(w, limit))
  }

  lemma StepKeeps(w: World, t: Thread, step: Step, limit: nat)
    requires Kept(w, limit) && Possible(w, t, step)
    ensures Kept(AfterStep(w, t, step, limit), limit)
  {
    hide MutexKept, ReallocKept, ClaimsKept, VacatedKept, Balanced, CountsKept, LimitKept, AfterStep, Possible;
    StepKeepsVacated(w, t, step, limit);
    StepKeepsMutex(w, t, step, limit);
    StepKeepsRealloc(w, t, step, limit);
    StepKeepsClaims(w, t, step, limit);
    forall a: Address { StepKeepsBalance(w, t, step, limit, a); }
    if limit > 0 {
      StepKeepsCounts(w, t, step, limit);
      StepKeepsLimit(w, t, step, limit);
    }
  }

  lemma BeginKept(limit: nat)
    ensures Kept(BEGIN, limit)
  {
    forall a: Address
      ensures Balanced(BEGIN, a)
    {
      assert forall t: Thread :: Owes(PlaceOf(BEGIN, t)) == None;
    }
  }

  lemma {:induction false} RunKeeps(w: World, moves: seq<Move>, limit: nat)
    requires Kept(w, limit) && RunFrom(w, moves, limit).Some?
    ensures Kept(RunFrom(w, moves, limit).value, limit)
  {
    hide Kept, AfterStep, Possible;
    if moves != [] {
      RunKeeps(w, moves[..|moves| - 1], limit);
      var last := moves[|moves| - 1];
      StepKeeps(RunFrom(w, moves[..|moves| - 1], limit).value, last.thread, last.step, limit);
    }
  }

  /** What every reachable world keeps. */
  lemma EveryRunKeeps(moves: seq<Move>, limit: nat)
    requires RunOf(moves, limit).Some?
    ensures Kept(RunOf(moves, limit).value, limit)
  {
    hide Kept, AfterStep, Possible;
    BeginKept(limit);
    RunKeeps(BEGIN, moves, limit);
  }

  lemma Extended(w: World, moves: seq<Move>, t: Thread, step: Step, limit: nat)
    requires RunFrom(w, moves, limit).Some? && Possible(RunFrom(w, moves, limit).value, t, step)
    ensures RunFrom(w, moves + [Move(t, step)], limit)
         == Some(AfterStep(RunFrom(w, moves, limit).value, t, step, limit))
  {
    assert (moves + [Move(t, step)])[..|moves|] == moves;
  }

  lemma {:induction false} Continued(w: World, moves: seq<Move>, more: seq<Move>, limit: nat)
    requires RunFrom(w, moves, limit).Some?
    ensures RunFrom(w, moves + more, limit) == RunFrom(RunFrom(w, moves, limit).value, more, limit)
    decreases |more|
  {
    hide AfterStep, Possible;
    if more == [] {
      assert moves + more == moves;
    } else {
      assert (moves + more)[..|moves + more| - 1] == moves + more[..|more| - 1];
      Continued(w, moves, more[..|more| - 1], limit);
    }
  }

  /** Whatever the interleaving, a thread that registers an address, after raw malloc or after raw
      realloc moved a block there, finds no entry for it or one that is not Allocated. */
  lemma RegistrationOverwritesOnlyDead(moves: seq<Move>, limit: nat, t: Thread)
    requires RunOf(moves, limit).Some?
    ensures var w := RunOf(moves, limit).value;
      && (PlaceOf(w, t).InAlloc? ==> !IsLive(w.items, PlaceOf(w, t).at))
      && (PlaceOf(w, t).Marked? ==> !IsLive(w.items, PlaceOf(w, t).to))
  {
    EveryRunKeeps(moves, limit);
    var w := RunOf(moves, limit).value;
    if PlaceOf(w, t).InAlloc? || PlaceOf(w, t).Marked? {
      OverwritesOnlyDead(w, t, Claim(PlaceOf(w, t)).value);
    }
  }

  /** Whatever the interleaving, an address was registered as often as deletes passed it to raw free or
      still owe that, moves took it, and it is live now: raw frees never outnumber registrations. */
  lemma FreesAreRegistrations(moves: seq<Move>, limit: nat, a: Address)
    requires RunOf(moves, limit).Some?
    ensures var w := RunOf(moves, limit).value;
      && w.tally.registrations[a] == w.tally.frees[a] + One(Owed(w, a)) + w.tally.moveMarks[a] + One(IsLive(w.items, a))
      && w.tally.frees[a] <= w.tally.registrations[a]
  {
    EveryRunKeeps(moves, limit);
    assert Balanced(RunOf(moves, limit).value, a);
  }

  /** Whatever the interleaving, a delete that holds the mutex reports a double free if and only if the
      address was registered and all its registrations are used up by deletes and moves. */
  lemma DoubleFreeIffUsedUp(moves: seq<Move>, limit: nat, t: Thread)
    requires RunOf(moves, limit).Some? && Possible(RunOf(moves, limit).value, t, UpdateTables)
    requires PlaceOf(RunOf(moves, limit).value, t).InDelete?
    ensures
      var w := RunOf(moves, limit).value;
      var a := PlaceOf(w, t).ptr;
      PlaceOf(Update(w, t, limit), t) == Unlocking(ThenReport(DoubleFree)) <==>
        w.tally.registrations[a] > 0 && w.tally.registrations[a] == w.tally.deleteMarks[a] + w.tally.moveMarks[a]
  {
    EveryRunKeeps(moves, limit);
    var w := RunOf(moves, limit).value;
    assert Balanced(w, PlaceOf(w, t).ptr);
  }

  /** Whatever the interleaving, under a positive limit every stack's count is the number of its live
      entries less the mismatches reported on it. */
  lemma CountsLackMismatches(moves: seq<Move>, limit: nat, stack: Stack)
    requires limit > 0 && RunOf(moves, limit).Some?
    ensures var w := RunOf(moves, limit).value;
      |Live(w.items, stack)| == CountOf(w.counts, stack) + w.tally.mismatchStacks[stack]
  {
    EveryRunKeeps(moves, limit);
    assert Counted(RunOf(moves, limit).value, stack);
  }

  /** Whatever the interleaving, under a positive limit the counts are right if and only if no delete has
      reported a mismatch; and no assertion has failed before one did. */
  lemma CountsAreRightIffNoMismatch(moves: seq<Move>, limit: nat)
    requires limit > 0 && RunOf(moves, limit).Some?
    ensures
      var w := RunOf(moves, limit).value;
      && (Conserved(Tables(w)) <==> w.tally.mismatches == multiset{})
      && (w.tally.mismatches == multiset{} ==> w.process != AssertFailed)
  {
    hide RunFrom;
    EveryRunKeeps(moves, limit);
    RightIffNoMismatch(RunOf(moves, limit).value);
  }

  lemma RightIffNoMismatch(w: World)
    requires CountsKept(w)
    ensures Conserved(Tables(w)) <==> w.tally.mismatchStacks == multiset{}
    ensures w.tally.mismatches == multiset{} <==> w.tally.mismatchStacks == multiset{}
  {
    hide Live;
    if w.tally.mismatchStacks == multiset{} {
      forall stack
        ensures CountOf(w.counts, stack) == |Live(w.items, stack)| && (stack in w.counts ==> w.counts[stack] > 0)
      {
        assert Counted(w, stack);
      }
    } else {
      var stack :| stack in w.tally.mismatchStacks;
      assert Counted(w, stack);
      assert CountOf(Tables(w).counts, stack) != |Live(Tables(w).items, stack)|;
    }
  }

  /** Whatever the interleaving, under a positive limit: an update fails an assertion if and only if it
      takes a live entry out of a stack all of whose live entries have been mismatched. */
  lemma AssertionFailsIff(moves: seq<Move>, limit: nat, t: Thread)
    requires limit > 0 && RunOf(moves, limit).Some? && Possible(RunOf(moves, limit).value, t, UpdateTables)
    ensures
      var w := RunOf(moves, limit).value;
      var place := PlaceOf(w, t);
      Update(w, t, limit).process == AssertFailed <==>
        ((place.InDelete? || place.Moved?) && IsLive(w.items, place.ptr)
          && var stack := w.items[place.ptr].allocTrace; w.tally.mismatchStacks[stack] == |Live(w.items, stack)|)
  {
    hide RunFrom, Update, TallyKept, VacatedKept, LimitKept;
    EveryRunKeeps(moves, limit);
    UpdateFailsIff(RunOf(moves, limit).value, t, limit);
  }

  /** Whatever the interleaving, under a positive limit no count exceeds the limit until some allocation
      reports a leak. */
  lemma WithinLimitUntilLeakReport(moves: seq<Move>, limit: nat)
    requires limit > 0 && RunOf(moves, limit).Some?
    requires RunOf(moves, limit).value.tally.leakReports == multiset{}
    ensures WithinLimit(Tables(RunOf(moves, limit).value), limit)
  {
    EveryRunKeeps(moves, limit);
  }

  /** Whatever the interleaving, a thread that registers a block goes on to report a leak if and only if,
      with this block, the live entries of an equal stack outnumber the limit and the mismatches that were
      reported on that stack. */
  lemma LeakReportIff(moves: seq<Move>, limit: nat, t: Thread)
    requires limit > 0 && RunOf(moves, limit).Some? && Possible(RunOf(moves, limit).value, t, UpdateTables)
    requires PlaceOf(RunOf(moves, limit).value, t).InAlloc? || PlaceOf(RunOf(moves, limit).value, t).Marked?
    ensures
      var w := RunOf(moves, limit).value;
      var x, stack := Update(w, t, limit), PlaceOf(w, t).stack;
      PlaceOf(x, t) == Unlocking(ThenReport(PossibilityOfMemoryLeak)) <==>
        |Live(x.items, stack)| > limit + w.tally.mismatchStacks[stack]
  {
    hide RunFrom, TallyKept, VacatedKept, LimitKept;
    EveryRunKeeps(moves, limit);
    var w := RunOf(moves, limit).value;
    UpdateKeepsCounts(w, t, limit);
    RegistrationReports(w, t, limit);
    assert Counted(Update(w, t, limit), PlaceOf(w, t).stack);
  }

  lemma RegistrationReports(w: World, t: Thread, limit: nat)
    requires limit > 0 && Possible(w, t, UpdateTables) && (PlaceOf(w, t).InAlloc? || PlaceOf(w, t).Marked?)
    ensures
      var x, stack := Update(w, t, limit), PlaceOf(w, t).stack;
      && (PlaceOf(x, t) == Unlocking(ThenReport(PossibilityOfMemoryLeak)) <==> CountOf(x.counts, stack) > limit)
      && x.tally.mismatchStacks == w.tally.mismatchStacks
  {
  }

  // ---- races -------------------------------------------------------------------------------------------

  /** Registrations and double frees only grow, and a double free needs a dead entry. */
  ghost predicate Grows(w: World, x: World, a: Address) {
    var y, z := w.tally, x.tally;
    && z.registrations[a] >= y.registrations[a]
    && (z.registrations[a] == y.registrations[a] && !IsLive(w.items, a) ==> !IsLive(x.items, a))
    && z.doubleFrees[a] >= y.doubleFrees[a]
    && (z.doubleFrees[a] > y.doubleFrees[a] ==> !IsLive(w.items, a))
  }

  lemma DeleteGrows(w: World, t: Thread, limit: nat, a: Address)
    requires Possible(w, t, UpdateTables) && PlaceOf(w, t).InDelete?
    ensures Grows(w, Update(w, t, limit), a)
  {
    hide Update, Possible, IsLive, Freeable;
    DeleteTally(w, t, limit, a);
  }

  lemma AddGrows(w: World, at: Address, typ: MemoryType, stack: Stack, limit: nat, a: Address)
    ensures Grows(w, Add(w, at, typ, stack, limit), a)
  {
    hide Raised, AfterAdd;
  }

  lemma UpdateGrows(w: World, t: Thread, limit: nat, a: Address)
    requires Possible(w, t, UpdateTables) && !PlaceOf(w, t).InDelete?
    ensures Grows(w, Update(w, t, limit), a)
  {
    hide Raised, Lowered, CountOf, Claimed, UpdateInDelete, Add, AfterAdd;
    match PlaceOf(w, t)
    case InAlloc(at, typ, stack) => AddGrows(w, at, typ, stack, limit, a);
    case Marked(to, stack) => AddGrows(w, to, Malloc, stack, limit, a);
    case _ =>
  }

  lemma StepGrows(w: World, t: Thread, step: Step, limit: nat, a: Address)
    requires Possible(w, t, step)
    ensures Grows(w, AfterStep(w, t, step, limit), a)
  {
    hide Update, Claimed;
    if step.UpdateTables? {
      if PlaceOf(w, t).InDelete? { DeleteGrows(w, t, limit, a); } else { UpdateGrows(w, t, limit, a); }
    }
  }

  lemma {:induction false} RunGrows(moves: seq<Move>, more: seq<Move>, limit: nat, a: Address)
    requires RunOf(moves + more, limit).Some?
    ensures RunOf(moves, limit).Some?
    ensures
      var w, x := RunOf(moves, limit).value, RunOf(moves + more, limit).value;
      && x.tally.registrations[a] >= w.tally.registrations[a]
      && (x.tally.registrations[a] == w.tally.registrations[a] && !IsLive(w.items, a) ==> !IsLive(x.items, a))
      && x.tally.doubleFrees[a] >= w.tally.doubleFrees[a]
      && (x.tally.registrations[a] == w.tally.registrations[a] && IsLive(x.items, a) ==>
          x.tally.doubleFrees[a] == w.tally.doubleFrees[a])
    decreases |more|
  {
    hide AfterStep, Possible;
    if more == [] {
      assert moves + more == moves;
    } else {
      var last := more[|more| - 1];
      assert (moves + more)[..|moves + more| - 1] == moves + more[..|more| - 1];
      RunGrows(moves, more[..|more| - 1], limit, a);
      StepGrows(RunOf(moves + more[..|more| - 1], limit).value, last.thread, last.step, limit, a);
    }
  }

  /** Threads race to delete one live block. As long as the address is not registered again, and no
      realloc moves the block and no delete names another type, then of n > 0 deletes that got their
      verdict exactly one frees the block (or still owes the raw free) and n - 1 report a double free. */
  lemma OneWinner(moves: seq<Move>, more: seq<Move>, limit: nat, a: Address)
    requires RunOf(moves, limit).Some? && RunOf(moves + more, limit).Some?
    requires var w, x := RunOf(moves, limit).value, RunOf(moves + more, limit).value;
      && IsLive(w.items, a)
      && x.tally.registrations[a] == w.tally.registrations[a]
      && x.tally.moveMarks[a] == w.tally.moveMarks[a]
      && x.tally.mismatches[a] == w.tally.mismatches[a]
      && x.tally.deletes[a] > w.tally.deletes[a]
    ensures
      var w, x := RunOf(moves, limit).value, RunOf(moves + more, limit).value;
      && x.tally.frees[a] + One(Owed(x, a)) == w.tally.frees[a] + 1
      && x.tally.doubleFrees[a] + 1 + w.tally.deletes[a] == w.tally.doubleFrees[a] + x.tally.deletes[a]
      && !IsLive(x.items, a)
  {
    var w, x := RunOf(moves, limit).value, RunOf(moves + more, limit).value;
    EveryRunKeeps(moves, limit);
    EveryRunKeeps(moves + more, limit);
    RunGrows(moves, more, limit, a);
    assert Balanced(w, a) && Balanced(x, a);
    assert !Owed(w, a) by { LiveIsNotOwed(w, a); }
  }

  lemma LiveIsNotOwed(w: World, a: Address)
    requires ClaimsKept(w) && VacatedKept(w) && IsLive(w.items, a)
    ensures !Owed(w, a)
  {
    if Owed(w, a) { OwesIsClaim(w, a); }
  }

  // ---- a critical section is a whole sequential call ---------------------------------------------------

  /** delete's critical section changes the tables as the sequential call does, and the thread leaves it
      towards the raw free, the callback or libc exactly as the sequential answer says. */
  lemma DeleteIsAtomic(w: World, t: Thread, inPool: bool, settings: Settings)
    requires Possible(w, t, UpdateTables) && PlaceOf(w, t).InDelete?
    ensures
      var place, x := PlaceOf(w, t), Update(w, t, settings.limit);
      var r := AfterDelete(Tables(w), place.ptr, place.expected, place.stack, inPool, settings);
      place.ptr != 0 ==>
        && SameTables(x, r.state)
        && (r.answer.Freed? <==> PlaceOf(x, t) == Unlocking(ThenFree(place.ptr)))
        && (r.answer.Passed? <==> PlaceOf(x, t) == Unlocking(ThenUnknownFree(place.ptr)))
        && (r.answer.Report? ==> PlaceOf(x, t) == Unlocking(ThenReport(r.answer.what)))
        && (r.answer == Abort <==> x.process == AssertFailed)
  {
    hide Lowered, CountOf;
  }

  /** A registration's critical section is the sequential one, leak report included. */
  lemma AllocIsAtomic(w: World, t: Thread, settings: Settings)
    requires Possible(w, t, UpdateTables) && PlaceOf(w, t).InAlloc?
    ensures
      var place, x := PlaceOf(w, t), Update(w, t, settings.limit);
      var r := Register(Tables(w), place.typ, place.at, place.stack, settings);
      SameTables(x, r.state) && PlaceOf(x, t) == Unlocking(if r.answer.leak then ThenReport(PossibilityOfMemoryLeak)
        else Return)
  {
    hide Raised;
  }

  /** realloc's verdict under the mutex is the sequential one, and changes no table. */
  lemma ReallocVerdictIsAtomic(w: World, t: Thread, count: nat, raw: Address, inPool: bool, settings: Settings)
    requires Possible(w, t, UpdateTables) && PlaceOf(w, t).InRealloc? && PlaceOf(w, t).ptr != 0 && count != 0
    ensures
      var place, x := PlaceOf(w, t), Update(w, t, settings.limit);
      var r := AfterRealloc(Tables(w), place.ptr, count, place.stack, raw, inPool, settings);
      && SameTables(x, Tables(w))
      && (forall what :: PlaceOf(x, t) == Unlocking(ThenReport(what)) <==> r.answer.Report? && r.answer.what == what)
      && (PlaceOf(x, t) == Unlocking(ThenUnknownRealloc(place.ptr)) <==> r.answer.Passed?)
      && (PlaceOf(x, t) == Moving(place.ptr, place.stack) <==> r.answer.Pointer? || r.answer == Abort)
  {
    hide Lowered, Raised;
  }

  /** So is the critical section of a realloc that moves, taken as its three steps, whatever other
      threads do to raw memory in between: they cannot touch the tables. */
  lemma MoveIsAtomic(w: World, v: World, t: Thread, settings: Settings)
    requires Possible(w, t, UpdateTables) && PlaceOf(w, t).Moved? && PlaceOf(w, t).ptr != PlaceOf(w, t).to
      && PlaceOf(w, t).ptr != 0
    requires IsLive(w.items, PlaceOf(w, t).ptr) && w.items[PlaceOf(w, t).ptr].typ == Malloc
    requires var x := Update(w, t, settings.limit);
      x.process == Running && v.items == x.items && v.counts == x.counts && PlaceOf(v, t) == PlaceOf(x, t)
        && Possible(v, t, UpdateTables)
    ensures
      var place := PlaceOf(w, t);
      var r := AfterRealloc(Tables(w), place.ptr, 1, place.stack, place.to, false, settings);
      r.answer.Pointer? && SameTables(Update(v, t, settings.limit), r.state)
  {
    hide Raised, Lowered, CountOf;
  }

  /** The tables belong to the thread that holds the mutex. */
  lemma OnlyHolderTouchesTables(w: World, t: Thread, u: Thread, step: Step, limit: nat)
    requires MutexKept(w) && Possible(w, u, step) && w.mutex == Some(t) && u != t
    ensures var x := AfterStep(w, u, step, limit);
      x.items == w.items && x.counts == w.counts && PlaceOf(x, t) == PlaceOf(w, t) && x.mutex == w.mutex
  {
    hide Claimed, Update;
    assert Holds(PlaceOf(w, u)) <==> w.mutex == Some(u);
    OthersStay(w, u, step, limit);
  }
}
