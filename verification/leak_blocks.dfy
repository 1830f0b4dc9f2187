/** Where the blocks of the leak-only tracker are: with a client, with one thread, or outside the tracker; and
    that a deleted block goes back to the raw allocator, which may hand it out again. */
module LeakBlocks {
  import opened Stacks
  import opened TrackerSpec
  import opened LeakOnlySpec
  import opened LeakThreads

  ghost predicate IsForeign(moves: seq<Move>, a: Address) {
    exists m :: m in moves && m.step == ForeignMalloc(a)
  }

  ghost predicate IsClaimed(w: World, a: Address) {
    exists t: Thread :: Claim(PlaceOf(w, t)) == Some(a)
  }

  lemma StaysClaimed(w: World, t: Thread, step: Step, build: Build, a: Address)
    requires ClaimsKept(w) && Possible(w, t, step) && a in LeakThreads.After(w, t, step, build).owned
    requires a in w.owned ==> a in w.held || IsClaimed(w, a)
    ensures var x := LeakThreads.After(w, t, step, build); a in x.held || IsClaimed(x, a) || step == ForeignMalloc(a)
  {
    hide LeakAlloc, LeakOnlySpec.AfterFree, ThreadClaims;
    var x := LeakThreads.After(w, t, step, build);
    OthersStay(w, t, step, build);
    if u: Thread :| u != t && Claim(PlaceOf(w, u)) == Some(a) {
      assert Claim(PlaceOf(x, u)) == Some(a);
    } else if a !in x.held && step != ForeignMalloc(a) {
      assert Claim(PlaceOf(x, t)) == Some(a);
    }
  }

  /** Whatever the interleaving, a block that the raw allocator has handed out belongs to a client or to one
      thread, unless it was allocated outside the tracker: no block gets lost on its way to the raw free. */
  lemma {:induction false} BlocksAccountedFor(moves: seq<Move>, build: Build, a: Address)
    requires RunOf(moves, build).Some? && a in RunOf(moves, build).value.owned
    ensures var w := RunOf(moves, build).value; a in w.held || IsClaimed(w, a) || IsForeign(moves, a)
  {
    hide LeakThreads.After, Possible, IsClaimed, Claim;
    if moves != [] {
      var before, last := moves[..|moves| - 1], moves[|moves| - 1];
      assert last in moves;
      EveryRunKeeps(before, build);
      var w := RunOf(before, build).value;
      if a in w.owned {
        BlocksAccountedFor(before, build, a);
        if IsForeign(before, a) {
          var m :| m in before && m.step == ForeignMalloc(a);
          assert m in moves;
          return;
        }
      }
      StaysClaimed(w, last.thread, last.step, build, a);
    }
  }

  // ---- calls that run to their end ---------------------------------------------------------------------------

  lemma Extended(moves: seq<Move>, t: Thread, step: Step, build: Build)
    requires RunOf(moves, build).Some? && Possible(RunOf(moves, build).value, t, step)
    ensures RunOf(moves + [Move(t, step)], build)
         == Some(LeakThreads.After(RunOf(moves, build).value, t, step, build))
  {
    hide LeakThreads.After, Possible;
    assert (moves + [Move(t, step)])[..|moves|] == moves;
  }

  /** From every reachable world with a free mutex, an idle thread deletes a client's block, or null: its entry
      goes, if it has one, and then the block goes back to the raw allocator. */
  lemma DeleteCompletes(moves: seq<Move>, t: Thread, a: Address, build: Build)
      returns (all: seq<Move>, x: World)
    requires RunOf(moves, build).Some?
    requires var w := RunOf(moves, build).value;
      w.view.process == Running && w.mutex == None && PlaceOf(w, t) == Idle && (a == 0 || a in w.held)
    ensures moves <= all && RunOf(all, build) == Some(x)
    ensures
      var w := RunOf(moves, build).value;
      && x.owned == w.owned - {a} && x.held == w.held - {a} && x.mutex == None
      && x.view == LeakOnlySpec.AfterFree(w.view, a) && a !in x.view.entries && x.view.process == Running
      && PlaceOf(x, t) == Idle && forall u: Thread :: u != t ==> PlaceOf(x, u) == PlaceOf(w, u)
  {
    hide RunOf, ThreadClaims, LeakAlloc, LeakOnlySpec.AfterFree;
    Extended(moves, t, CallDelete(a), build);
    var m1 := moves + [Move(t, CallDelete(a))];
    Extended(m1, t, TakeMutex, build);
    var m2 := m1 + [Move(t, TakeMutex)];
    FreeLeavesNoEntry(RunOf(moves, build).value.view, a);
    Extended(m2, t, UpdateTables(false), build);
    var m3 := m2 + [Move(t, UpdateTables(false))];
    Extended(m3, t, GiveMutexBack, build);
    var m4 := m3 + [Move(t, GiveMutexBack)];
    Extended(m4, t, RawFree, build);
    all := m4 + [Move(t, RawFree)];
    x := RunOf(all, build).value;
  }

  lemma FreeLeavesNoEntry(v: View, a: Address)
    ensures a !in LeakOnlySpec.AfterFree(v, a).entries && LeakOnlySpec.AfterFree(v, a).process == v.process
  {
  }

  /** From every reachable world with a free mutex, an idle thread allocates a block that the raw allocator has:
      the client gets it, with an entry. */
  lemma AllocCompletes(moves: seq<Move>, t: Thread, a: Address, stack: Stack, build: Build)
      returns (all: seq<Move>, x: World)
    requires RunOf(moves, build).Some?
    requires var w := RunOf(moves, build).value;
      w.view.process == Running && w.mutex == None && PlaceOf(w, t) == Idle && a != 0 && a !in w.owned
    ensures moves <= all && RunOf(all, build) == Some(x)
    ensures
      var w := RunOf(moves, build).value;
      && x.owned == w.owned + {a} && x.held == w.held + {a} && x.mutex == None
      && x.view.entries == w.view.entries[a := stack] && x.view.process == Running
      && PlaceOf(x, t) == Idle && forall u: Thread :: u != t ==> PlaceOf(x, u) == PlaceOf(w, u)
  {
    hide RunOf, ThreadClaims, LeakAlloc;
    var w := RunOf(moves, build).value;
    AssertNeverFires(moves, build, t);
    Extended(moves, t, RawMalloc(a, Some(stack)), build);
    var m1 := moves + [Move(t, RawMalloc(a, Some(stack)))];
    Extended(m1, t, TakeMutex, build);
    var m2 := m1 + [Move(t, TakeMutex)];
    NewEntry(w.view, a, stack, build);
    Extended(m2, t, UpdateTables(false), build);
    var m3 := m2 + [Move(t, UpdateTables(false))];
    Extended(m3, t, GiveMutexBack, build);
    all := m3 + [Move(t, GiveMutexBack)];
    x := RunOf(all, build).value;
  }

  /** The same for a block whose stack could not be captured: the client gets it, and it has no entry. */
  lemma UntrackedCompletes(moves: seq<Move>, t: Thread, a: Address, build: Build) returns (all: seq<Move>, x: World)
    requires RunOf(moves, build).Some?
    requires var w := RunOf(moves, build).value;
      w.view.process == Running && PlaceOf(w, t) == Idle && a != 0 && a !in w.owned
    ensures moves <= all && RunOf(all, build) == Some(x)
    ensures
      var w := RunOf(moves, build).value;
      && x.owned == w.owned + {a} && x.held == w.held + {a} && x.mutex == w.mutex
      && x.view == w.view && a !in x.view.entries
  {
    hide RunOf, ThreadClaims;
    AssertNeverFires(moves, build, t);
    Extended(moves, t, RawMalloc(a, None), build);
    var m1 := moves + [Move(t, RawMalloc(a, None))];
    Extended(m1, t, ReturnUntracked, build);
    all := m1 + [Move(t, ReturnUntracked)];
    x := RunOf(all, build).value;
  }

  /** Memory from malloc comes and goes without a trace in the tables. */
  lemma ForeignComesAndGoes(moves: seq<Move>, t: Thread, a: Address, build: Build)
    requires RunOf(moves, build).Some?
    requires var w := RunOf(moves, build).value;
      w.view.process == Running && PlaceOf(w, t) == Idle && a != 0 && a !in w.owned
    ensures var w := RunOf(moves, build).value;
      && RunOf(moves + [Move(t, ForeignMalloc(a))], build) == Some(w.(owned := w.owned + {a}))
      && RunOf(moves + [Move(t, ForeignMalloc(a))] + [Move(t, ForeignFree(a))], build) == Some(w)
  {
    hide RunOf;
    var w := RunOf(moves, build).value;
    EveryRunKeeps(moves, build);
    ThreadClaimsAre(w, a);
    Extended(moves, t, ForeignMalloc(a), build);
    assert ThreadClaims(w.(owned := w.owned + {a})) == ThreadClaims(w);
    Extended(moves + [Move(t, ForeignMalloc(a))], t, ForeignFree(a), build);
    assert w.owned + {a} - {a} == w.owned;
  }

  lemma NewEntry(v: View, a: Address, stack: Stack, build: Build)
    requires a != 0 && a !in v.entries
    ensures var x := LeakAlloc(v, a, Some(stack), false, build);
      x.entries == v.entries[a := stack] && x.process == v.process
  {
  }

  /** After the moves a client owns the block, and the table has it with this stack. */
  ghost predicate ClientHas(moves: seq<Move>, a: Address, stack: Stack, build: Build) {
    RunOf(moves, build).Some? && var w := RunOf(moves, build).value;
      a in w.held && a in w.view.entries && w.view.entries[a] == stack
  }

  /** After the moves the raw allocator has the block, and the table does not have it. */
  ghost predicate AllocatorHas(moves: seq<Move>, a: Address, build: Build) {
    RunOf(moves, build).Some? && var w := RunOf(moves, build).value; a !in w.owned && a !in w.view.entries
  }

  /** One address is allocated, deleted and allocated again, from every reachable world with a free mutex and an
      idle thread in which the raw allocator has its block. */
  lemma BlockIsReused(moves: seq<Move>, t: Thread, a: Address, stack: Stack, other: Stack, build: Build)
      returns (given: seq<Move>, freed: seq<Move>, again: seq<Move>)
    requires RunOf(moves, build).Some?
    requires var w := RunOf(moves, build).value;
      w.view.process == Running && w.mutex == None && PlaceOf(w, t) == Idle && a != 0 && a !in w.owned
    ensures moves <= given && given <= freed && freed <= again
    ensures ClientHas(given, a, stack, build) && AllocatorHas(freed, a, build) && ClientHas(again, a, other, build)
  {
    hide RunOf;
    var x, y, z;
    given, x := AllocCompletes(moves, t, a, stack, build);
    freed, y := DeleteCompletes(given, t, a, build);
    again, z := AllocCompletes(freed, t, a, other, build);
  }

  /** A thread's registration, and its next moves up to the end of the process. */
  function ThroughReport(t: Thread, late: bool): seq<Move> {
    [Move(t, UpdateTables(late)), Move(t, GiveMutexBack), Move(t, Exit)]
  }

  lemma ThreeMoves(moves: seq<Move>, a: Move, b: Move, c: Move, build: Build)
    ensures moves + [a, b, c] == moves + [a] + [b] + [c]
    ensures RunOf(moves + [a, b, c], build).Some? ==>
      RunOf(moves + [a] + [b], build).Some? && RunOf(moves + [a], build).Some?
  {
    hide LeakThreads.After, Possible;
    var one, two, three := moves + [a], moves + [a] + [b], moves + [a, b, c];
    assert three == two + [c] && three[..|two|] == two && two[..|one|] == one;
  }

  /** Whatever the interleaving, a thread that registers a block goes on to end the process with a leak report if
      and only if the block is a late one, an equal stack has an entry already, and with this block the entries
      of that stack outnumber the limit. */
  lemma LeakReportEndsIff(moves: seq<Move>, t: Thread, late: bool, build: Build)
    requires RunOf(moves, build).Some? && Possible(RunOf(moves, build).value, t, UpdateTables(late))
    requires PlaceOf(RunOf(moves, build).value, t).InAlloc?
    ensures
      var w, x := RunOf(moves, build).value, RunOf(moves + ThroughReport(t, late), build);
      var n := |From(w.view.entries, PlaceOf(w, t).stack)|;
      x.Some? && x.value.view.process == Exited(PossibilityOfMemoryLeak) <==> late && n > 0 && n + 1 > build.limit
  {
    hide RunOf, ThreadClaims, From, CountOf;
    var w, place := RunOf(moves, build).value, PlaceOf(RunOf(moves, build).value, t);
    AssertNeverFires(moves, build, t);
    EveryRunKeeps(moves, build);
    NoStaleEntry(w, t);
    assert CountOf(w.view.counts, place.stack) == |From(w.view.entries, place.stack)|;
    CountedIff(w.view, place.stack);
    var update, giveBack, exit := Move(t, UpdateTables(late)), Move(t, GiveMutexBack), Move(t, Exit);
    ThreeMoves(moves, update, giveBack, exit, build);
    Extended(moves, t, UpdateTables(late), build);
    Extended(moves + [update], t, GiveMutexBack, build);
    var y := RunOf(moves + [update] + [giveBack], build).value;
    if Possible(y, t, Exit) {
      Extended(moves + [update] + [giveBack], t, Exit, build);
    } else {
      NotExtended(moves + [update] + [giveBack], t, Exit, build);
    }
  }

  lemma NotExtended(moves: seq<Move>, t: Thread, step: Step, build: Build)
    requires RunOf(moves, build).Some? && !Possible(RunOf(moves, build).value, t, step)
    ensures RunOf(moves + [Move(t, step)], build) == None
  {
    hide LeakThreads.After, Possible;
    assert (moves + [Move(t, step)])[..|moves|] == moves;
  }

  lemma CountedIff(v: View, stack: Stack)
    requires Counted(v)
    ensures stack in v.counts <==> CountOf(v.counts, stack) > 0
  {
  }
}
