/** A mismatching delete under the default callback, which ends the process at its report: before that,
    another thread can run into the count that the mismatch left behind. */
module TrackerMismatch {
  import opened Stacks
  import opened TrackerSpec
  import opened TrackerThreads
  import opened TrackerWild

  lemma MismatchStep(w: World, t: Thread, ptr: Address, expected: MemoryType, limit: nat)
    requires w.process == Running && PlaceOf(w, t) == InDelete(ptr, expected, [0]) && ptr != 0
    requires IsLive(w.items, ptr) && w.items[ptr].typ != expected && CountOf(w.counts, w.items[ptr].allocTrace) == 1
    ensures Possible(w, t, UpdateTables)
    ensures var x := AfterStep(w, t, UpdateTables, limit);
      && x.items == w.items && CountOf(x.counts, w.items[ptr].allocTrace) == 0
      && x.process == Running && x.mutex == w.mutex
      && x.places == w.places[t := Unlocking(ThenReport(FreeMissmatch))]
  {
    hide Claimed;
  }

  lemma FailingStep(w: World, t: Thread, ptr: Address, expected: MemoryType, limit: nat)
    requires w.process == Running && PlaceOf(w, t) == InDelete(ptr, expected, [0]) && ptr != 0
    requires IsLive(w.items, ptr) && CountOf(w.counts, w.items[ptr].allocTrace) == 0
    ensures Possible(w, t, UpdateTables) && AfterStep(w, t, UpdateTables, limit).process == AssertFailed
  {
    hide Claimed;
  }

  /** From every world with a free mutex in which one allocation of a stack is counted: a thread deletes it
      with the wrong type, and before that thread's report ends the process, another thread that deletes
      the same block, correctly even, fails the assertion. */
  lemma MismatchThenDelete(w: World, t: Thread, u: Thread, ptr: Address, wrong: MemoryType, limit: nat)
      returns (moves: seq<Move>)
    requires w.process == Running && w.mutex == None && t != u && PlaceOf(w, t) == Idle && PlaceOf(w, u) == Idle
      && ptr != 0
    requires IsLive(w.items, ptr) && w.items[ptr].typ != wrong && CountOf(w.counts, w.items[ptr].allocTrace) == 1
    ensures NoContinuing(moves) && RunFrom(w, moves, limit).Some?
      && RunFrom(w, moves, limit).value.process == AssertFailed
  {
    hide RunFrom, AfterStep, Possible;
    var first, x := ReachesDelete(w, t, ptr, wrong, [0], limit);
    MismatchStep(x, t, ptr, wrong, limit);
    OneStep(x, t, UpdateTables, limit);
    var y := AfterStep(x, t, UpdateTables, limit);
    GiveBackStep(y, t, ThenReport(FreeMissmatch), limit);
    OneStep(y, t, GiveMutexBack, limit);
    var z := AfterStep(y, t, GiveMutexBack, limit);
    var second, v := ReachesDelete(z, u, ptr, w.items[ptr].typ, [0], limit);
    FailingStep(v, u, ptr, w.items[ptr].typ, limit);
    OneStep(v, u, UpdateTables, limit);
    var m1 := first + [Move(t, UpdateTables)];
    var m2 := m1 + [Move(t, GiveMutexBack)];
    Continued(w, first, [Move(t, UpdateTables)], limit);
    Continued(w, m1, [Move(t, GiveMutexBack)], limit);
    Continued(w, m2, second, limit);
    Continued(w, m2 + second, [Move(u, UpdateTables)], limit);
    moves := m2 + second + [Move(u, UpdateTables)];
  }

  /** Such a run from the beginning: one thread allocates with new, a second one deletes with delete[], a
      third one with delete. */
  lemma MismatchRaceFails(limit: nat) returns (moves: seq<Move>)
    requires limit > 0
    ensures NoContinuing(moves) && RunOf(moves, limit).Some? && RunOf(moves, limit).value.process == AssertFailed
  {
    hide RunFrom, AfterStep, Possible;
    var first, x := RegistersBlock(BEGIN, 1, 100, limit);
    var second := MismatchThenDelete(x, 2, 3, 100, NewArr, limit);
    Continued(BEGIN, first, second, limit);
    moves := first + second;
  }
}
