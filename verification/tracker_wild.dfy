/** What happens when a client hands libc an address that the tracker does not know, while the block
    belongs to somebody. */
module TrackerWild {
  import opened Stacks
  import opened TrackerSpec
  import opened TrackerThreads

  /** The raw free of an unknown address, whether or not `Possible` lets it happen. */
  function FreedUnknown(w: World, t: Thread): World
    requires PlaceOf(w, t).UnknownFreeing?
  {
    Go(w.(owned := w.owned - {PlaceOf(w, t).at}), t, Idle)
  }

  /** A thread is about to register an address whose entry says Allocated. */
  ghost predicate OverwritesAt(w: World, u: Thread) {
    var place := PlaceOf(w, u);
    (place.InAlloc? && IsLive(w.items, place.at)) || (place.Marked? && IsLive(w.items, place.to))
  }

  ghost predicate Overwrites(w: World) {
    exists u: Thread :: OverwritesAt(w, u)
  }

  // ---- single steps ----------------------------------------------------------------------------------

  lemma MallocStep(w: World, t: Thread, at: Address, typ: MemoryType, stack: Stack, limit: nat)
    requires w.process == Running && PlaceOf(w, t) == Idle && at != 0 && at !in w.owned
    ensures Possible(w, t, RawMalloc(at, typ, stack))
    ensures AfterStep(w, t, RawMalloc(at, typ, stack), limit)
         == w.(owned := w.owned + {at}, places := w.places[t := HasRaw(at, typ, stack)])
  {
    hide Update, Claimed;
  }

  lemma MutexStep(w: World, t: Thread, at: Address, typ: MemoryType, stack: Stack, limit: nat)
    requires w.process == Running && w.mutex == None && PlaceOf(w, t) == HasRaw(at, typ, stack)
    ensures Possible(w, t, TakeMutex)
    ensures AfterStep(w, t, TakeMutex, limit) == w.(mutex := Some(t), places := w.places[t := InAlloc(at, typ, stack)])
  {
    hide Update, Claimed;
  }

  lemma RegisterStep(w: World, t: Thread, at: Address, typ: MemoryType, stack: Stack, limit: nat)
    requires w.process == Running && PlaceOf(w, t) == InAlloc(at, typ, stack)
    ensures Possible(w, t, UpdateTables)
    ensures var x := AfterStep(w, t, UpdateTables, limit);
      && x.items == w.items[at := Item(typ, Allocated, at, stack, None)]
      && x.counts == w.counts[stack := Raised(w.counts, stack, limit)]
      && x.mutex == w.mutex && x.process == w.process && x.owned == w.owned
      && x.places == w.places[t := Unlocking(AfterAdd(w, stack, limit))]
  {
    hide Claimed;
  }

  lemma GiveBackStep(w: World, t: Thread, next: Next, limit: nat)
    requires w.process == Running && PlaceOf(w, t) == Unlocking(next)
    ensures Possible(w, t, GiveMutexBack)
    ensures AfterStep(w, t, GiveMutexBack, limit) == w.(mutex := None, places := w.places[t := Unlocked(next)])
  {
    hide Update, Claimed;
  }

  lemma FreeStep(w: World, t: Thread, at: Address, limit: nat)
    requires w.process == Running && PlaceOf(w, t) == Freeing(at)
    ensures Possible(w, t, RawFree)
    ensures var x := AfterStep(w, t, RawFree, limit);
      && x.items == w.items && x.counts == w.counts && x.mutex == w.mutex && x.process == w.process
      && x.owned == w.owned - {at}
      && x.places == w.places[t := Idle]
  {
    hide Update, Claimed;
  }

  lemma OneStep(w: World, t: Thread, step: Step, limit: nat)
    requires Possible(w, t, step)
    ensures RunFrom(w, [Move(t, step)], limit) == Some(AfterStep(w, t, step, limit))
  {
    hide AfterStep, Possible;
    assert [Move(t, step)][..0] == [];
  }

  /** No failure callback of these moves lets the process continue. */
  predicate NoContinuing(moves: seq<Move>) {
    forall m :: m in moves ==> !m.step.ContinueAfterReport?
  }

  // ---- a block that is handed out again ----------------------------------------------------------------

  /** An idle thread gets a free block from raw malloc and takes the mutex. */
  lemma GetsBlock(w: World, t: Thread, a: Address, limit: nat) returns (moves: seq<Move>, x: World)
    requires w.process == Running && w.mutex == None && PlaceOf(w, t) == Idle && a != 0 && a !in w.owned
    ensures RunFrom(w, moves, limit) == Some(x) && NoContinuing(moves)
    ensures PlaceOf(x, t) == InAlloc(a, New, [0]) && x.items == w.items && x.counts == w.counts && x.process == Running
    ensures x.mutex == Some(t) && x.owned == w.owned + {a}
    ensures forall u: Thread :: u != t ==> PlaceOf(x, u) == PlaceOf(w, u)
  {
    hide AfterStep, Possible, RunFrom;
    MallocStep(w, t, a, New, [0], limit);
    OneStep(w, t, RawMalloc(a, New, [0]), limit);
    var y := AfterStep(w, t, RawMalloc(a, New, [0]), limit);
    MutexStep(y, t, a, New, [0], limit);
    OneStep(y, t, TakeMutex, limit);
    x := AfterStep(y, t, TakeMutex, limit);
    moves := [Move(t, RawMalloc(a, New, [0]))] + [Move(t, TakeMutex)];
    Continued(w, [Move(t, RawMalloc(a, New, [0]))], [Move(t, TakeMutex)], limit);
  }

  /** ... and registers it. */
  lemma RegistersBlock(w: World, t: Thread, a: Address, limit: nat) returns (moves: seq<Move>, x: World)
    requires w.process == Running && w.mutex == None && PlaceOf(w, t) == Idle && a != 0 && a !in w.owned
    ensures RunFrom(w, moves, limit) == Some(x) && NoContinuing(moves)
    ensures x.items == w.items[a := Item(New, Allocated, a, [0], None)] && x.process == Running && x.mutex == None
    ensures x.owned == w.owned + {a}
    ensures x.counts == w.counts[[0] := Raised(w.counts, [0], limit)]
    ensures forall u: Thread :: u != t ==> PlaceOf(x, u) == PlaceOf(w, u)
  {
    hide AfterStep, Possible, RunFrom;
    var first, y := GetsBlock(w, t, a, limit);
    RegisterStep(y, t, a, New, [0], limit);
    OneStep(y, t, UpdateTables, limit);
    var z := AfterStep(y, t, UpdateTables, limit);
    GiveBackStep(z, t, AfterAdd(y, [0], limit), limit);
    OneStep(z, t, GiveMutexBack, limit);
    x := AfterStep(z, t, GiveMutexBack, limit);
    Continued(w, first, [Move(t, UpdateTables)], limit);
    Continued(w, first + [Move(t, UpdateTables)], [Move(t, GiveMutexBack)], limit);
    moves := first + [Move(t, UpdateTables)] + [Move(t, GiveMutexBack)];
  }

  /** From any world in which an address is live, a free mutex and a thread in flight with that address
      lead to an overwritten entry. */
  lemma InFlightOverwrites(w: World, u: Thread, a: Address, limit: nat) returns (moves: seq<Move>)
    requires w.process == Running && w.mutex == None && IsLive(w.items, a) && a != 0
    requires PlaceOf(w, u).HasRaw? || PlaceOf(w, u).Freeing?
    requires PlaceOf(w, u).at == a
    ensures RunFrom(w, moves, limit).Some? && Overwrites(RunFrom(w, moves, limit).value)
  {
    hide AfterStep, Possible, RunFrom;
    match PlaceOf(w, u)
    case HasRaw(_, typ, stack) =>
      MutexStep(w, u, a, typ, stack, limit);
      OneStep(w, u, TakeMutex, limit);
      moves := [Move(u, TakeMutex)];
      assert OverwritesAt(RunFrom(w, moves, limit).value, u);
    case Freeing(_) =>
      FreeStep(w, u, a, limit);
      OneStep(w, u, RawFree, limit);
      var y := AfterStep(w, u, RawFree, limit);
      var more, x := GetsBlock(y, u, a, limit);
      Continued(w, [Move(u, RawFree)], more, limit);
      moves := [Move(u, RawFree)] + more;
      assert OverwritesAt(x, u);
  }

  /** A client's unknown free takes a block away from its holder: then some continuation brings a thread to
      overwrite a live entry. */
  lemma ClaimedIsOverwritten(w: World, t: Thread, limit: nat) returns (moves: seq<Move>)
    requires Kept(w, limit) && w.process == Running && w.mutex == None && PlaceOf(w, t).UnknownFreeing?
    requires PlaceOf(w, t).at in Claimed(w)
    ensures RunFrom(FreedUnknown(w, t), moves, limit).Some?
    ensures Overwrites(RunFrom(FreedUnknown(w, t), moves, limit).value)
  {
    hide AfterStep, Possible, RunFrom, TallyKept, CountsKept, VacatedKept, ReallocKept;
    var a, x := PlaceOf(w, t).at, FreedUnknown(w, t);
    ClaimedIsOwned(w, a);
    if a in Tabled(w) {
      var y;
      moves, y := GetsBlock(x, t, a, limit);
      assert OverwritesAt(y, t);
    } else {
      ThreadClaimsAre(w, a);
      var u: Thread :| Claim(PlaceOf(w, u)) == Some(a);
      assert Holds(PlaceOf(w, u)) <==> w.mutex == Some(u);
      var first, y := RegistersBlock(x, t, a, limit);
      var second := InFlightOverwrites(y, u, a, limit);
      Continued(x, first, second, limit);
      moves := first + second;
    }
  }

  lemma ClaimedIsOwned(w: World, a: Address)
    requires ClaimsKept(w) && a in Claimed(w)
    ensures a in w.owned && a != 0
  {
    ThreadClaimsAre(w, a);
  }

  /** The demand that `Possible` makes of an unknown free is exactly the right one. In every reachable
      world with a free mutex: some continuation of the free overwrites a live entry if and only if the
      freed address is tabled or in flight. */
  lemma UnknownFreeIff(w: World, t: Thread, limit: nat)
    requires Kept(w, limit) && w.process == Running && w.mutex == None && PlaceOf(w, t).UnknownFreeing?
    ensures
      var x := FreedUnknown(w, t);
      (exists moves :: RunFrom(x, moves, limit).Some? && Overwrites(RunFrom(x, moves, limit).value)) <==>
          PlaceOf(w, t).at in Claimed(w)
  {
    hide Kept, AfterStep, RunFrom, Claimed, Overwrites;
    var x := FreedUnknown(w, t);
    if PlaceOf(w, t).at in Claimed(w) {
      var moves := ClaimedIsOverwritten(w, t, limit);
    } else {
      FreedIsStep(w, t, limit);
      StepKeeps(w, t, UnknownFree(false), limit);
      forall moves | RunFrom(x, moves, limit).Some?
        ensures !Overwrites(RunFrom(x, moves, limit).value)
      {
        RunKeeps(x, moves, limit);
        NothingOverwritten(RunFrom(x, moves, limit).value, limit);
      }
    }
  }

  lemma FreedIsStep(w: World, t: Thread, limit: nat)
    requires w.process == Running && PlaceOf(w, t).UnknownFreeing? && PlaceOf(w, t).at !in Claimed(w)
    ensures Possible(w, t, UnknownFree(false)) && AfterStep(w, t, UnknownFree(false), limit) == FreedUnknown(w, t)
  {
  }

  lemma NothingOverwritten(w: World, limit: nat)
    requires Kept(w, limit)
    ensures !Overwrites(w)
  {
    hide TallyKept, CountsKept, VacatedKept, ReallocKept, MutexKept, ClaimsKept;
    forall u: Thread
      ensures !OverwritesAt(w, u)
    {
      if PlaceOf(w, u).InAlloc? || PlaceOf(w, u).Marked? {
        OverwritesOnlyDead(w, u, Claim(PlaceOf(w, u)).value);
      }
    }
  }

  // ---- a concrete run ------------------------------------------------------------------------------------

  lemma UnknownStep(w: World, t: Thread, ptr: Address, expected: MemoryType, stack: Stack, limit: nat)
    requires w.process == Running && PlaceOf(w, t) == InDelete(ptr, expected, stack) && ptr != 0 && ptr !in w.items
    ensures Possible(w, t, UpdateTables)
    ensures AfterStep(w, t, UpdateTables, limit) == Go(w, t, Unlocking(ThenUnknownFree(ptr)))
  {
    hide Claimed;
  }

  /** A thread calls delete and takes the mutex. */
  lemma ReachesDelete(w: World, t: Thread, ptr: Address, expected: MemoryType, stack: Stack, limit: nat)
      returns (moves: seq<Move>, x: World)
    requires w.process == Running && w.mutex == None && PlaceOf(w, t) == Idle && ptr != 0
    ensures moves == [Move(t, CallDelete(ptr, expected, stack)), Move(t, TakeMutex)]
    ensures RunFrom(w, moves, limit) == Some(x)
    ensures x == w.(mutex := Some(t), places := w.places[t := InDelete(ptr, expected, stack)])
  {
    hide RunFrom, Update, Claimed;
    var call := CallDelete(ptr, expected, stack);
    OneStep(w, t, call, limit);
    var y := AfterStep(w, t, call, limit);
    OneStep(y, t, TakeMutex, limit);
    x := AfterStep(y, t, TakeMutex, limit);
    Continued(w, [Move(t, call)], [Move(t, TakeMutex)], limit);
    moves := [Move(t, call)] + [Move(t, TakeMutex)];
  }

  /** A delete of an address that the table does not know, up to where libc is about to free it. */
  lemma UnknownDelete(stack: Stack, limit: nat)
    ensures
      RunOf([Move(1, CallDelete(100, New, stack)), Move(1, TakeMutex), Move(1, UpdateTables), Move(1, GiveMutexBack)],
          limit)
        == Some(BEGIN.(places := map[1 := UnknownFreeing(100)]))
  {
    hide AfterStep, RunFrom, Possible;
    var m, w := ReachesDelete(BEGIN, 1, 100, New, stack, limit);
    UnknownStep(w, 1, 100, New, stack, limit);
    OneStep(w, 1, UpdateTables, limit);
    var x := AfterStep(w, 1, UpdateTables, limit);
    GiveBackStep(x, 1, ThenUnknownFree(100), limit);
    assert w.places[1 := Unlocking(ThenUnknownFree(100))][1 := UnknownFreeing(100)] == map[1 := UnknownFreeing(100)];
    OneStep(x, 1, GiveMutexBack, limit);
    Continued(BEGIN, m, [Move(1, UpdateTables)], limit);
    Continued(BEGIN, m + [Move(1, UpdateTables)], [Move(1, GiveMutexBack)], limit);
    assert m + [Move(1, UpdateTables)] + [Move(1, GiveMutexBack)]
        == [Move(1, CallDelete(100, New, stack)), Move(1, TakeMutex), Move(1, UpdateTables), Move(1, GiveMutexBack)];
  }

  /** Such a world is reached by a client that frees an address while another thread's malloc of it is
      still in flight. */
  lemma WildFreeOverwrites(stack: Stack, limit: nat)
    ensures
      var before := [Move(1, CallDelete(100, New, stack)), Move(1, TakeMutex), Move(1, UpdateTables),
          Move(1, GiveMutexBack)]
                    + [Move(2, RawMalloc(100, New, stack))];
      var w := RunOf(before, limit);
      && w.Some? && PlaceOf(w.value, 1) == UnknownFreeing(100) && 100 in Claimed(w.value)
      && exists moves :: var x := RunFrom(FreedUnknown(w.value, 1), moves, limit); x.Some? && Overwrites(x.value)
  {
    hide AfterStep, RunFrom, Kept, Overwrites;
    UnknownDelete(stack, limit);
    var m := [Move(1, CallDelete(100, New, stack)), Move(1, TakeMutex), Move(1, UpdateTables), Move(1, GiveMutexBack)];
    var v := RunOf(m, limit).value;
    MallocStep(v, 2, 100, New, stack, limit);
    Extended(BEGIN, m, 2, RawMalloc(100, New, stack), limit);
    var w := AfterStep(v, 2, RawMalloc(100, New, stack), limit);
    assert Claim(PlaceOf(w, 2)) == Some(100);
    ThreadClaimsAre(w, 100);
    EveryRunKeeps(m + [Move(2, RawMalloc(100, New, stack))], limit);
    var moves := ClaimedIsOverwritten(w, 1, limit);
  }
}
