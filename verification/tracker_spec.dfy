/** The allocation tracker, one call after another: what each call does to the two tables, and what
    therefore holds after every run. A null pointer is address 0. Both tables are taken as the maps they are
    meant to be. For the stack table, which removes entries, that means line 84 of the hash table repaired;
    StackItems shows what happens with the line as written. */
module TrackerSpec {
  import opened Words
  import opened Stacks

  type Address = nat

  datatype Option<T> = None | Some(value: T)

  datatype MemoryType = NotProvided | New | NewArr | Malloc

  datatype Status = Allocated | Deallocated

  datatype FailureType =
    | DeallocOfNonExistingMemory
    | DoubleFree
    | FreeMissmatch
    | BadReallocDeletedMem
    | BadReallocCreatedByWrongAlloc
    | PossibilityOfMemoryLeak

  /** SMemoryItem. */
  datatype Item = Item(typ: MemoryType, status: Status, realAddress: Address, allocTrace: Stack,
      deallocTrace: Option<Stack>)

  type Items = map<Address, Item>
  type Counts = map<Stack, nat>

  datatype Process = Running | Exited(why: FailureType) | AssertFailed

  /** Both tables, the blocks that the raw allocator has handed out, and whether the process still runs. */
  datatype State = State(items: Items, counts: Counts, owned: set<Address>, process: Process)

  const START: State := State(map[], map[], {}, Running)

  /** The limit of allocations from one stack, and the failures after which the callback lets the
      process continue. */
  datatype Settings = Settings(limit: nat, continues: set<FailureType>)

  /** The default callback continues only after an unknown deallocation. */
  ghost predicate DefaultCallback(settings: Settings) {
    settings.continues == {DeallocOfNonExistingMemory}
  }

  /** One call, with the captured stack and with what the raw allocator and the pool answer to it. */
  datatype Call =
    | Alloc(count: nat, typ: MemoryType, stack: Stack, raw: Address)
    | Calloc(nmemb: nat, size: nat, stack: Stack, raw: Address)
    | Realloc(ptr: Address, count: nat, stack: Stack, raw: Address, inPool: bool)
    | Delete(ptr: Address, expected: MemoryType, stack: Stack, inPool: bool)

  datatype Answer =
    | Ignored                                // delete of a null pointer
    | Refused                                // null, or bad_alloc
    | Pointer(at: Address, leak: bool)       // tracked memory, with or without a leak report
    | Freed                                  // the block went to the raw free
    | Passed(at: Address)                    // not in the table: left to the pool or to libc
    | Report(what: FailureType, item: Item)  // the failure callback got this item
    | Abort                                  // an assertion failed

  datatype Result = Result(state: State, answer: Answer)

  // ---- the calls ----------------------------------------------------------------------------------

  function Fail(s: State, what: FailureType, item: Item, settings: Settings): Result {
    Result(if what in settings.continues then s else s.(process := Exited(what)), Report(what, item))
  }

  function CountOf(counts: Counts, stack: Stack): nat {
    if stack in counts then counts[stack] else 0
  }

  /** The count that registering one more allocation leaves for its stack. */
  function Raised(counts: Counts, stack: Stack, limit: nat): nat {
    if stack !in counts then 1 else if limit > 0 then counts[stack] + 1 else counts[stack]
  }

  function Lowered(counts: Counts, stack: Stack): Counts
    requires CountOf(counts, stack) != 0
  {
    if counts[stack] == 1 then counts - {stack} else counts[stack := counts[stack] - 1]
  }

  function Register(s: State, typ: MemoryType, at: Address, stack: Stack, settings: Settings): Result {
    var n := Raised(s.counts, stack, settings.limit);
    var leak := stack in s.counts && settings.limit > 0 && n > settings.limit;
    var items := s.items[at := Item(typ, Allocated, at, stack, None)];
    var process := if leak && PossibilityOfMemoryLeak !in settings.continues then Exited(PossibilityOfMemoryLeak)
      else s.process;
    Result(State(items, s.counts[stack := n], s.owned, process), Pointer(at, leak))
  }

  function AfterAlloc(s: State, count: nat, typ: MemoryType, stack: Stack, raw: Address, settings: Settings): Result {
    if count == 0 || raw == 0 then Result(s, Refused)
    else Register(s.(owned := s.owned + {raw}), typ, raw, stack, settings)
  }

  function AfterDelete(s: State, ptr: Address, expected: MemoryType, stack: Stack, inPool: bool,
      settings: Settings): Result {
    if ptr == 0 then Result(s, Ignored)
    else if ptr !in s.items then
      Result(if inPool then s else s.(owned := s.owned - {ptr}), Passed(0))
    else
      var item := s.items[ptr];
      if item.status != Allocated then Fail(s, DoubleFree, item, settings)
      else if CountOf(s.counts, item.allocTrace) == 0 then Result(s.(process := AssertFailed), Abort)
      else
        var lowered := s.(counts := Lowered(s.counts, item.allocTrace));
        if item.typ != expected then Fail(lowered, FreeMissmatch, item, settings)
        else
          var marked := s.items[ptr := item.(status := Deallocated, deallocTrace := Some(stack))];
          Result(lowered.(items := marked, owned := s.owned - {item.realAddress}), Freed)
  }

  /** The old block marked, after the raw allocator moved it to `raw`; a raw realloc that failed leaves
      the old block where it was, and is treated as a move to the null address. */
  function MovedOff(s: State, ptr: Address, raw: Address): State
    requires ptr in s.items && CountOf(s.counts, s.items[ptr].allocTrace) != 0
  {
    var item := s.items[ptr];
    State(s.items[ptr := item.(status := Deallocated)], Lowered(s.counts, item.allocTrace),
          if raw == 0 then s.owned else s.owned - {item.realAddress} + {raw}, s.process)
  }

  function AfterRealloc(s: State, ptr: Address, count: nat, stack: Stack, raw: Address, inPool: bool,
      settings: Settings): Result {
    if ptr == 0 then AfterAlloc(s, count, Malloc, stack, raw, settings)
    else if count == 0 then AfterDelete(s, ptr, Malloc, stack, inPool, settings)
    else if ptr !in s.items then
      Result(if inPool || raw == 0 then s else s.(owned := s.owned - {ptr} + {raw}), Passed(raw))
    else
      var item := s.items[ptr];
      if item.typ != Malloc then Fail(s, BadReallocCreatedByWrongAlloc, item, settings)
      else if item.status != Allocated then Fail(s, BadReallocDeletedMem, item, settings)
      else if raw == ptr then Result(s, Pointer(ptr, false))
      else if CountOf(s.counts, item.allocTrace) == 0 then Result(s.(process := AssertFailed), Abort)
      else
        Register(MovedOff(s, ptr, raw), Malloc, raw, stack, settings)
  }

  function After(s: State, call: Call, settings: Settings): Result {
    match call
    case Alloc(count, typ, stack, raw) => AfterAlloc(s, count, typ, stack, raw, settings)
    case Calloc(nmemb, size, stack, raw) => AfterAlloc(s, Wrap(nmemb * size), Malloc, stack, raw, settings)
    case Realloc(ptr, count, stack, raw, inPool) => AfterRealloc(s, ptr, count, stack, raw, inPool, settings)
    case Delete(ptr, expected, stack, inPool) => AfterDelete(s, ptr, expected, stack, inPool, settings)
  }

  // ---- history: what a caller saw, without looking at the tables -----------------------------------

  /** What happened to one address. A moving realloc releases without recording a stack. */
  datatype Event = Registered(at: Address, typ: MemoryType, stack: Stack) | Released(at: Address, trace: Option<Stack>)

  function Target(call: Call): Address {
    if call.Realloc? || call.Delete? then call.ptr else 0
  }

  /** The events of a call, read off the call and its answer. */
  function Events(call: Call, answer: Answer): seq<Event> {
    match answer
    case Freed => [Released(Target(call), Some(call.stack))]
    case Pointer(at, _) =>
      var registered := Registered(at, if call.Alloc? then call.typ else Malloc, call.stack);
      if Target(call) == 0 then [registered]
      else if at == Target(call) then []
      else [Released(Target(call), None), registered]
    case _ => []
  }

  function Last(h: seq<Event>, a: Address): (r: Option<Event>)
    ensures r.Some? ==> r.value.at == a && r.value in h
  {
    if h == [] then None
    else if h[|h| - 1].at == a then Some(h[|h| - 1])
    else Last(h[..|h| - 1], a)
  }

  function LastRegistration(h: seq<Event>, a: Address): (r: Option<Event>)
    ensures r.Some? ==> r.value.Registered? && r.value.at == a
  {
    if h == [] then None
    else if h[|h| - 1].Registered? && h[|h| - 1].at == a then Some(h[|h| - 1])
    else LastRegistration(h[..|h| - 1], a)
  }

  /** How often delete released an address; a moving realloc records no stack. */
  function FreesIn(h: seq<Event>, a: Address): nat {
    if h == [] then 0
    else
      var e := h[|h| - 1];
      FreesIn(h[..|h| - 1], a) + if e.at == a && e.Released? && e.trace.Some? then 1 else 0
  }

  lemma {:induction false} FreesAdded(h: seq<Event>, more: seq<Event>, a: Address)
    ensures FreesIn(h + more, a) == FreesIn(h, a) + FreesIn(more, a)
    decreases |more|
  {
    if more == [] {
      assert h + more == h;
    } else {
      assert (h + more)[..|h + more| - 1] == h + more[..|more| - 1];
      FreesAdded(h, more[..|more| - 1], a);
    }
  }

  /** The addresses allocated from `stack` and not released since. */
  function LiveIn(h: seq<Event>, stack: Stack): set<Address> {
    set e | e in h && e.Registered? && e.stack == stack && Last(h, e.at) == Some(e) :: e.at
  }

  datatype System = System(state: State, history: seq<Event>)

  function Step(y: System, call: Call, settings: Settings): System {
    if y.state.process != Running then y
    else
      var r := After(y.state, call, settings);
      System(r.state, y.history + Events(call, r.answer))
  }

  function Run(calls: seq<Call>, settings: Settings): System {
    if calls == [] then System(START, [])
    else Step(Run(calls[..|calls| - 1], settings), calls[|calls| - 1], settings)
  }

  /** What the calls of a run answered, up to the end of the process. */
  function AnswersOf(calls: seq<Call>, settings: Settings): seq<Answer> {
    if calls == [] then []
    else
      var before, last := calls[..|calls| - 1], calls[|calls| - 1];
      var s := Run(before, settings).state;
      AnswersOf(before, settings) + if s.process == Running then [After(s, last, settings).answer] else []
  }

  // ---- the table of addresses is the history -----------------------------------------------------

  ghost predicate EntryMatches(item: Item, a: Address, h: seq<Event>) {
    && item.realAddress == a
    && LastRegistration(h, a) == Some(Registered(a, item.typ, item.allocTrace))
    && Last(h, a) == (if item.status == Allocated then LastRegistration(h, a) else Some(Released(a, item.deallocTrace)))
    && (item.status == Allocated ==> item.deallocTrace == None)
  }

  ghost predicate Matches(items: Items, h: seq<Event>) {
    && (forall a :: a in items <==> Last(h, a).Some?)
    && (forall a :: a in items ==> EntryMatches(items[a], a, h))
  }

  lemma Appended(h: seq<Event>, e: Event, a: Address)
    ensures Last(h + [e], a) == if e.at == a then Some(e) else Last(h, a)
    ensures LastRegistration(h + [e], a) == if e.Registered? && e.at == a then Some(e) else LastRegistration(h, a)
  {
    assert (h + [e])[..|h|] == h;
  }

  lemma RegisteredMatches(items: Items, h: seq<Event>, at: Address, typ: MemoryType, stack: Stack)
    requires Matches(items, h)
    ensures Matches(items[at := Item(typ, Allocated, at, stack, None)], h + [Registered(at, typ, stack)])
  {
    forall a { Appended(h, Registered(at, typ, stack), a); }
  }

  lemma ReleasedMatches(items: Items, h: seq<Event>, at: Address, trace: Option<Stack>)
    requires Matches(items, h) && at in items && items[at].status == Allocated
    ensures Matches(items[at := items[at].(status := Deallocated, deallocTrace := trace)], h + [Released(at, trace)])
  {
    forall a { Appended(h, Released(at, trace), a); }
  }

  lemma NotYetReleased(items: Items, h: seq<Event>, a: Address)
    requires Matches(items, h) && a in items && items[a].status == Allocated
    ensures items[a].deallocTrace == None
  {
  }

  lemma CallMatches(s: State, h: seq<Event>, call: Call, settings: Settings)
    requires Matches(s.items, h)
    ensures var r := After(s, call, settings); Matches(r.state.items, h + Events(call, r.answer))
  {
    hide Last, LastRegistration, CountOf, Lowered, Matches;
    var r := After(s, call, settings);
    var target := Target(call);
    assert h + [] == h;
    if r.answer.Freed? {
      ReleasedMatches(s.items, h, target, Some(call.stack));
    } else if r.answer.Pointer? {
      var at := r.answer.at;
      var typ := if call.Alloc? then call.typ else Malloc;
      if target == 0 {
        RegisteredMatches(s.items, h, at, typ, call.stack);
      } else if at != target {
        NotYetReleased(s.items, h, target);
        ReleasedMatches(s.items, h, target, None);
        var marked := s.items[target := s.items[target].(status := Deallocated)];
        RegisteredMatches(marked, h + [Released(target, None)], at, typ, call.stack);
        assert h + [Released(target, None)] + [Registered(at, typ, call.stack)] == h + Events(call, r.answer);
      }
    }
  }

  /** Whatever the calls, the callback, the limit and the raw allocator do, the table of addresses holds
      what the callers saw happen: type, stack and status of the last registration and release. */
  lemma {:induction false} TableIsHistory(calls: seq<Call>, settings: Settings)
    ensures var y := Run(calls, settings); Matches(y.state.items, y.history)
  {
    if calls != [] {
      var before := Run(calls[..|calls| - 1], settings);
      TableIsHistory(calls[..|calls| - 1], settings);
      CallMatches(before.state, before.history, calls[|calls| - 1], settings);
    }
  }

  // ---- conservation ------------------------------------------------------------------------------

  /** The addresses that the table holds as allocated from `stack`. */
  function Live(items: Items, stack: Stack): set<Address> {
    set a | a in items && items[a].status == Allocated && items[a].allocTrace == stack
  }

  ghost predicate Conserved(s: State) {
    forall stack ::
      CountOf(s.counts, stack) == |Live(s.items, stack)| && (stack in s.counts ==> s.counts[stack] > 0)
  }

  ghost predicate WithinLimit(s: State, limit: nat) {
    forall stack :: stack in s.counts ==> s.counts[stack] <= limit
  }

  /** Every entry that says Allocated belongs to a block that the raw allocator has handed out. */
  ghost predicate Backed(s: State) {
    && 0 !in s.owned
    && forall a :: a in s.items && s.items[a].status == Allocated ==> a in s.owned && s.items[a].realAddress == a
  }

  predicate IsLive(items: Items, a: Address) {
    a in items && items[a].status == Allocated
  }

  /** What the raw allocator promises: it hands out only blocks that nobody holds, and (an assumption
      of the tracker, not of the C standard) a realloc of a tracked block never fails. */
  ghost predicate RawAllocatorKeepsWord(s: State, call: Call) {
    match call
    case Alloc(_, _, _, raw) => raw !in s.owned
    case Calloc(_, _, _, raw) => raw !in s.owned
    case Realloc(ptr, _, _, raw, _) =>
      if ptr == 0 then raw !in s.owned
      else (raw !in s.owned || raw == ptr) && (IsLive(s.items, ptr) ==> raw != 0)
    case Delete(_, _, _, _) => true
  }

  lemma LiveAfterUpdate(items: Items, a: Address, item: Item, stack: Stack)
    ensures Live(items[a := item], stack)
         == if item.status == Allocated && item.allocTrace == stack then Live(items, stack) + {a}
           else Live(items, stack) - {a}
  {
  }

  /** Registering at an address that is not live keeps counts and table in step if and only if the
      limit is positive or the stack is new: with limit 0 a second allocation is not counted. */
  lemma RegisterConservesIff(s: State, typ: MemoryType, at: Address, stack: Stack, settings: Settings)
    requires Conserved(s) && !IsLive(s.items, at)
    ensures Conserved(Register(s, typ, at, stack, settings).state) <==> settings.limit > 0 || stack !in s.counts
  {
    var r := Register(s, typ, at, stack, settings).state;
    var item := Item(typ, Allocated, at, stack, None);
    forall other
      ensures Live(r.items, other) == if other == stack then Live(s.items, stack) + {at} else Live(s.items, other)
    {
      LiveAfterUpdate(s.items, at, item, other);
    }
    assert CountOf(s.counts, stack) == |Live(s.items, stack)|;
    assert at !in Live(s.items, stack);
    if !(settings.limit > 0 || stack !in s.counts) {
      assert CountOf(r.counts, stack) != |Live(r.items, stack)|;
    }
  }

  /** Marking an allocated entry goes with lowering its stack's count, which is then not 0. */
  lemma ReleaseConserves(s: State, at: Address, trace: Option<Stack>)
    requires Conserved(s) && IsLive(s.items, at)
    ensures CountOf(s.counts, s.items[at].allocTrace) != 0
    ensures Conserved(s.(counts := Lowered(s.counts, s.items[at].allocTrace),
                         items := s.items[at := s.items[at].(status := Deallocated, deallocTrace := trace)]))
  {
    var stack := s.items[at].allocTrace;
    assert at in Live(s.items, stack);
    assert CountOf(s.counts, stack) == |Live(s.items, stack)|;
    var item := s.items[at].(status := Deallocated, deallocTrace := trace);
    forall other {
      LiveAfterUpdate(s.items, at, item, other);
    }
  }

  /** What holds in every state that a run reaches before the process ends. */
  ghost predicate Good(s: State, limit: nat) {
    Conserved(s) && WithinLimit(s, limit) && Backed(s)
  }

  /** What every call leaves: no failed assertion, backed blocks, counts that are right unless the call
      reported a mismatch, and counts within the limit unless it reported a leak. */
  ghost predicate LeftGood(r: Result, limit: nat) {
    && r.answer != Abort
    && Backed(r.state)
    && (Conserved(r.state) <==> !(r.answer.Report? && r.answer.what == FreeMissmatch))
    && (WithinLimit(r.state, limit) <==> !(r.answer.Pointer? && r.answer.leak))
  }

  /** Lowering a count without marking an entry is what a mismatch does. */
  lemma LoweredAloneIsWrong(s: State, t: State, stack: Stack)
    requires Conserved(s) && CountOf(s.counts, stack) != 0
    requires t.items == s.items && t.counts == Lowered(s.counts, stack)
    ensures !Conserved(t)
  {
    assert CountOf(s.counts, stack) == |Live(s.items, stack)|;
    assert CountOf(t.counts, stack) != |Live(t.items, stack)|;
  }

  lemma LoweredStaysWithin(counts: Counts, stack: Stack, limit: nat)
    requires CountOf(counts, stack) != 0 && forall k :: k in counts ==> counts[k] <= limit
    ensures forall k :: k in Lowered(counts, stack) ==> Lowered(counts, stack)[k] <= limit
  {
  }

  /** delete leaves the counts right if and only if it does not name a live entry with the wrong type. */
  lemma DeleteKeepsGood(s: State, ptr: Address, expected: MemoryType, stack: Stack, inPool: bool, settings: Settings)
    requires Good(s, settings.limit)
    ensures LeftGood(AfterDelete(s, ptr, expected, stack, inPool, settings), settings.limit)
    ensures Conserved(AfterDelete(s, ptr, expected, stack, inPool, settings).state)
       <==> !(IsLive(s.items, ptr) && s.items[ptr].typ != expected)
  {
    hide Lowered, Conserved, CountOf;
    var r := AfterDelete(s, ptr, expected, stack, inPool, settings);
    if IsLive(s.items, ptr) {
      ReleaseConserves(s, ptr, Some(stack));
      var trace := s.items[ptr].allocTrace;
      LoweredStaysWithin(s.counts, trace, settings.limit);
      if s.items[ptr].typ != expected {
        LoweredAloneIsWrong(s, r.state, trace);
      } else {
        SameTables(s.(counts := Lowered(s.counts, trace), items := r.state.items), r.state, settings.limit);
      }
    } else {
      SameTables(s, r.state, settings.limit);
    }
  }

  lemma RegisterKeepsGood(s: State, typ: MemoryType, at: Address, stack: Stack, settings: Settings)
    requires Good(s, settings.limit) && settings.limit > 0
    requires at in s.owned && !IsLive(s.items, at)
    ensures LeftGood(Register(s, typ, at, stack, settings), settings.limit)
  {
    RegisterConservesIff(s, typ, at, stack, settings);
    var r := Register(s, typ, at, stack, settings);
    assert r.answer.leak ==> stack in r.state.counts && r.state.counts[stack] > settings.limit;
  }

  lemma AllocKeepsGood(s: State, count: nat, typ: MemoryType, stack: Stack, raw: Address, settings: Settings)
    requires Good(s, settings.limit) && settings.limit > 0 && raw !in s.owned
    ensures LeftGood(AfterAlloc(s, count, typ, stack, raw, settings), settings.limit)
  {
    if count != 0 && raw != 0 {
      RegisterKeepsGood(s.(owned := s.owned + {raw}), typ, raw, stack, settings);
    }
  }

  lemma MoveKeepsGood(s: State, ptr: Address, stack: Stack, raw: Address, settings: Settings)
    requires Good(s, settings.limit) && settings.limit > 0
    requires IsLive(s.items, ptr) && raw != 0 && raw !in s.owned
    ensures CountOf(s.counts, s.items[ptr].allocTrace) != 0
    ensures LeftGood(Register(MovedOff(s, ptr, raw), Malloc, raw, stack, settings), settings.limit)
  {
    ReleaseConserves(s, ptr, s.items[ptr].deallocTrace);
    RegisterKeepsGood(MovedOff(s, ptr, raw), Malloc, raw, stack, settings);
  }

  lemma ReallocKeepsGood(s: State, ptr: Address, count: nat, stack: Stack, raw: Address, inPool: bool,
      settings: Settings)
    requires Good(s, settings.limit) && settings.limit > 0 && ptr != 0
    requires RawAllocatorKeepsWord(s, Realloc(ptr, count, stack, raw, inPool))
    ensures LeftGood(AfterRealloc(s, ptr, count, stack, raw, inPool, settings), settings.limit)
  {
    hide Register, AfterDelete, Conserved, WithinLimit, Lowered;
    if count == 0 {
      DeleteKeepsGood(s, ptr, Malloc, stack, inPool, settings);
    } else if IsLive(s.items, ptr) && s.items[ptr].typ == Malloc && raw != ptr {
      MoveKeepsGood(s, ptr, stack, raw, settings);
    } else {
      SameTables(s, AfterRealloc(s, ptr, count, stack, raw, inPool, settings).state, settings.limit);
    }
  }

  lemma SameTables(s: State, t: State, limit: nat)
    requires Conserved(s) && WithinLimit(s, limit) && t.items == s.items && t.counts == s.counts
    ensures Conserved(t) && WithinLimit(t, limit)
  {
  }

  lemma CallKeepsGood(s: State, call: Call, settings: Settings)
    requires Good(s, settings.limit) && settings.limit > 0 && RawAllocatorKeepsWord(s, call)
    ensures LeftGood(After(s, call, settings), settings.limit)
  {
    hide AfterAlloc, AfterDelete, AfterRealloc, LeftGood, Conserved, WithinLimit, Backed;
    match call
    case Alloc(count, typ, stack, raw) =>
      AllocKeepsGood(s, count, typ, stack, raw, settings);
    case Calloc(nmemb, size, stack, raw) =>
      AllocKeepsGood(s, Wrap(nmemb * size), Malloc, stack, raw, settings);
    case Realloc(ptr, count, stack, raw, inPool) =>
      if ptr == 0 {
        AllocKeepsGood(s, count, Malloc, stack, raw, settings);
        NullReallocIsAlloc(s, count, stack, raw, inPool, settings);
      } else {
        ReallocKeepsGood(s, ptr, count, stack, raw, inPool, settings);
      }
    case Delete(ptr, expected, stack, inPool) =>
      DeleteKeepsGood(s, ptr, expected, stack, inPool, settings);
  }

  lemma NullReallocIsAlloc(s: State, count: nat, stack: Stack, raw: Address, inPool: bool, settings: Settings)
    ensures AfterRealloc(s, 0, count, stack, raw, inPool, settings)
         == AfterAlloc(s, count, Malloc, stack, raw, settings)
  {
  }

  // ---- every run -----------------------------------------------------------------------------------

  /** The raw allocator keeps its word at every call of the run. */
  ghost predicate Legal(calls: seq<Call>, settings: Settings) {
    calls != [] ==>
      && Legal(calls[..|calls| - 1], settings)
      && var before := Run(calls[..|calls| - 1], settings).state;
         before.process == Running ==> RawAllocatorKeepsWord(before, calls[|calls| - 1])
  }

  /** Under the default callback and a positive limit no run fails an assertion, and as long as the
      process runs the count of every stack is the number of its allocated entries, never 0 and never
      above the limit. */
  lemma {:induction false} EveryRunConserves(calls: seq<Call>, settings: Settings)
    requires DefaultCallback(settings) && settings.limit > 0 && Legal(calls, settings)
    ensures var s := Run(calls, settings).state;
      s.process != AssertFailed && (s.process == Running ==> Good(s, settings.limit))
  {
    if calls != [] {
      var before := Run(calls[..|calls| - 1], settings).state;
      EveryRunConserves(calls[..|calls| - 1], settings);
      if before.process == Running {
        CallKeepsGood(before, calls[|calls| - 1], settings);
        FatalReports(before, calls[|calls| - 1], settings);
      }
    }
  }

  /** What becomes of the process: a reported failure and a leak report end it unless the callback lets it
      continue after them, a failed assertion ends it, and nothing else does. */
  lemma ProcessOutcome(s: State, call: Call, settings: Settings)
    ensures
      var r := After(s, call, settings);
      r.state.process ==
        match r.answer
        case Report(what, _) => if what in settings.continues then s.process else Exited(what)
        case Pointer(_, leak) =>
          if leak && PossibilityOfMemoryLeak !in settings.continues then Exited(PossibilityOfMemoryLeak) else s.process
        case Abort => AssertFailed
        case _ => s.process
  {
  }

  /** The default callback ends the process at every failure that a call reports, and nothing else does. */
  lemma FatalReports(s: State, call: Call, settings: Settings)
    requires DefaultCallback(settings) && s.process == Running
    ensures var r := After(s, call, settings);
      && (r.answer.Report? ==> r.state.process == Exited(r.answer.what))
      && (r.answer.Pointer? && r.answer.leak ==> r.state.process == Exited(PossibilityOfMemoryLeak))
      && (!r.answer.Report? && !(r.answer.Pointer? && r.answer.leak) && r.answer != Abort ==>
          r.state.process == Running)
      && (r.state.process == AssertFailed <==> r.answer == Abort)
  {
    NeverUnknown(s, call, settings);
    ProcessOutcome(s, call, settings);
  }

  /** No call reports the failure after which the default callback continues. */
  lemma NeverUnknown(s: State, call: Call, settings: Settings)
    ensures var r := After(s, call, settings); r.answer.Report? ==> r.answer.what != DeallocOfNonExistingMemory
  {
  }

  // ---- requests for memory --------------------------------------------------------------------------

  /** The size that a request for new memory asks for; a realloc of null is one. */
  function SizeAsked(call: Call): nat
    requires Target(call) == 0 && !call.Delete?
  {
    match call
    case Alloc(count, _, _, _) => count
    case Calloc(nmemb, size, _, _) => nmemb * size % 0x1_0000_0000_0000_0000
    case Realloc(_, count, _, _, _) => count
  }

  /** In every state and for any callback, a request for new memory is refused if and only if it asks for
      nothing or the raw allocator has nothing, and then changes nothing. Otherwise it answers with the raw
      block, which is then a live entry of the call's type and stack, and no other entry has changed. */
  lemma RequestOutcome(s: State, call: Call, settings: Settings)
    requires Target(call) == 0 && !call.Delete?
    ensures
      var r := After(s, call, settings);
      && (r.answer == Refused <==> SizeAsked(call) == 0 || call.raw == 0)
      && (r.answer == Refused ==> r.state == s)
      && (r.answer != Refused ==>
            && r.answer.Pointer? && r.answer.at == call.raw
            && IsLive(r.state.items, call.raw)
            && r.state.items[call.raw].typ == (if call.Alloc? then call.typ else Malloc)
            && r.state.items[call.raw].allocTrace == call.stack
            && (forall a :: a != call.raw ==> (a in r.state.items <==> a in s.items))
            && (forall a :: a != call.raw && a in s.items ==> r.state.items[a] == s.items[a])
            && r.state.owned == s.owned + {call.raw})
  {
  }

  /** What a call on an address does to the blocks that the raw allocator holds as handed out: a freed block
      goes back, a moved one is exchanged for the new one, an address that the table does not know goes back
      unless it is the pool's, and in every other case nothing does. */
  lemma OwnedOutcome(s: State, call: Call, settings: Settings)
    requires Target(call) != 0 && Backed(s)
    ensures
      var r, ptr := After(s, call, settings), Target(call);
      r.state.owned ==
        match r.answer
        case Freed => s.owned - {ptr}
        case Pointer(at, _) => if at == ptr || at == 0 then s.owned else s.owned - {ptr} + {at}
        case Passed(_) =>
          if call.inPool then s.owned
          else if call.Delete? || call.count == 0 then s.owned - {ptr}
          else if call.raw == 0 then s.owned else s.owned - {ptr} + {call.raw}
        case _ => s.owned
  {
  }

  // ---- verdicts --------------------------------------------------------------------------------------

  /** After every legal run: delete reports a double free if and only if the last thing that happened to
      the address was a release, a mismatch if and only if it was an allocation of another type, frees
      if and only if it was an allocation of the expected type, and leaves the address to the pool or to
      libc if and only if nothing ever happened to it. A double free is reported with the stacks of the
      last allocation and of the release. */
  lemma DeleteVerdictExact(calls: seq<Call>, ptr: Address, expected: MemoryType, stack: Stack, inPool: bool,
      settings: Settings)
    requires DefaultCallback(settings) && settings.limit > 0 && Legal(calls, settings)
    requires Run(calls, settings).state.process == Running && ptr != 0
    ensures
      var y := Run(calls, settings);
      var answer := After(y.state, Delete(ptr, expected, stack, inPool), settings).answer;
      var last := Last(y.history, ptr);
      && (answer.Report? && answer.what == DoubleFree <==> last.Some? && last.value.Released?)
      && (answer.Report? && answer.what == FreeMissmatch <==>
          last.Some? && last.value.Registered? && last.value.typ != expected)
      && (answer.Freed? <==> last.Some? && last.value.Registered? && last.value.typ == expected)
      && (answer.Passed? <==> last == None)
      && (answer.Freed? ==> y.state.items[ptr].realAddress == ptr)
      && (answer.Report? && answer.what == DoubleFree ==>
            && answer.item.deallocTrace == last.value.trace
            && LastRegistration(y.history, ptr) == Some(Registered(ptr, answer.item.typ, answer.item.allocTrace)))
  {
    TableIsHistory(calls, settings);
    EveryRunConserves(calls, settings);
    var y := Run(calls, settings);
    if IsLive(y.state.items, ptr) {
      ReleaseConserves(y.state, ptr, None);
    }
  }

  /** After every legal run: realloc's verdicts on a nonempty request follow the same history, with the
      type of the last allocation checked before whether it was released. */
  lemma ReallocVerdictExact(calls: seq<Call>, ptr: Address, count: nat, stack: Stack, raw: Address, inPool: bool,
      settings: Settings)
    requires DefaultCallback(settings) && settings.limit > 0 && Legal(calls, settings)
    requires Run(calls, settings).state.process == Running && ptr != 0 && count != 0
    ensures
      var y := Run(calls, settings);
      var answer := After(y.state, Realloc(ptr, count, stack, raw, inPool), settings).answer;
      var last, registration := Last(y.history, ptr), LastRegistration(y.history, ptr);
      && (answer.Report? && answer.what == BadReallocCreatedByWrongAlloc <==>
          registration.Some? && registration.value.typ != Malloc)
      && (answer.Report? && answer.what == BadReallocDeletedMem <==>
            registration.Some? && registration.value.typ == Malloc && last.Some? && last.value.Released?)
      && (answer.Pointer? <==>
          registration.Some? && registration.value.typ == Malloc && last.Some? && last.value.Registered?)
      && (answer.Pointer? ==> answer.at == raw && y.state.items[ptr].realAddress == ptr)
      && (answer.Passed? <==> last == None)
      && (answer.Passed? ==> answer.at == raw)
  {
    TableIsHistory(calls, settings);
    EveryRunConserves(calls, settings);
    hide Run, Conserved, Live, Backed, WithinLimit, Register, MovedOff, CountOf, Last, LastRegistration, Legal;
    var y := Run(calls, settings);
    if ptr in y.state.items {
      assert EntryMatches(y.state.items[ptr], ptr, y.history);
    } else {
      assert Last(y.history, ptr) == None;
      NothingRegistered(y.history, ptr);
    }
    if IsLive(y.state.items, ptr) {
      ReleaseConserves(y.state, ptr, None);
    }
  }

  /** After every run, whatever the callback and the limit: the failure callback gets the item of the address
      that the call was given, with the type and the stack of its last registration, and with the stack of its
      release if that came last. */
  lemma ReportNamesLastUse(calls: seq<Call>, call: Call, settings: Settings)
    ensures
      var y, ptr := Run(calls, settings), Target(call);
      var answer := After(y.state, call, settings).answer;
      answer.Report? ==>
        && ptr != 0 && answer.item.realAddress == ptr
        && LastRegistration(y.history, ptr) == Some(Registered(ptr, answer.item.typ, answer.item.allocTrace))
        && Last(y.history, ptr) == (if answer.item.status == Allocated then LastRegistration(y.history, ptr)
             else Some(Released(ptr, answer.item.deallocTrace)))
  {
    hide Run, Last, LastRegistration, After;
    TableIsHistory(calls, settings);
    ReportedItem(Run(calls, settings).state, call, settings);
  }

  lemma ReportedItem(s: State, call: Call, settings: Settings)
    ensures
      var answer := After(s, call, settings).answer;
      answer.Report? ==> Target(call) != 0 && Target(call) in s.items && answer.item == s.items[Target(call)]
  {
    hide Lowered, CountOf, Raised;
  }

  lemma {:induction false} NothingRegistered(h: seq<Event>, a: Address)
    requires Last(h, a) == None
    ensures LastRegistration(h, a) == None
  {
    if h != [] { NothingRegistered(h[..|h| - 1], a); }
  }

  /** After every legal run: realloc of an address to size 0 is a delete of type Malloc, with its verdicts
      read off the history. */
  lemma ReallocToNothingExact(calls: seq<Call>, ptr: Address, stack: Stack, raw: Address, inPool: bool,
      settings: Settings)
    requires DefaultCallback(settings) && settings.limit > 0 && Legal(calls, settings)
    requires Run(calls, settings).state.process == Running && ptr != 0
    ensures
      var y := Run(calls, settings);
      var answer := After(y.state, Realloc(ptr, 0, stack, raw, inPool), settings).answer;
      var last := Last(y.history, ptr);
      && (answer.Freed? <==> last.Some? && last.value.Registered? && last.value.typ == Malloc)
      && (answer.Report? && answer.what == FreeMissmatch <==>
          last.Some? && last.value.Registered? && last.value.typ != Malloc)
      && (answer.Report? && answer.what == DoubleFree <==> last.Some? && last.value.Released?)
      && (answer.Passed? <==> last == None)
  {
    hide Last, LastRegistration, Run, Legal;
    DeleteVerdictExact(calls, ptr, Malloc, stack, inPool, settings);
  }

  /** After every run, whatever the callback, the limit and the raw allocator: an entry is live with a type
      if and only if the last event of its address is a registration with that type. */
  lemma LiveIsLastRegistered(calls: seq<Call>, settings: Settings, ptr: Address, typ: MemoryType)
    ensures
      var y := Run(calls, settings);
      var last := Last(y.history, ptr);
      IsLive(y.state.items, ptr) && y.state.items[ptr].typ == typ <==>
        last.Some? && last.value.Registered? && last.value.typ == typ
  {
    hide Run;
    TableIsHistory(calls, settings);
  }

  lemma LiveIsHistory(items: Items, h: seq<Event>, stack: Stack)
    requires Matches(items, h)
    ensures Live(items, stack) == LiveIn(h, stack)
  {
    forall a | a in Live(items, stack)
      ensures a in LiveIn(h, stack)
    {
      var e := Last(h, a).value;
      assert e in h && e.Registered? && e.stack == stack && Last(h, e.at) == Some(e);
    }
  }

  /** After every legal run, a call that allocates reports a leak if and only if, with this allocation,
      more blocks allocated from an equal stack are live than the limit allows. */
  lemma LeakReportExact(calls: seq<Call>, call: Call, settings: Settings)
    requires DefaultCallback(settings) && settings.limit > 0 && Legal(calls + [call], settings)
    requires Run(calls, settings).state.process == Running
    ensures
      var y := Run(calls, settings);
      var answer := After(y.state, call, settings).answer;
      var h := y.history + Events(call, answer);
      answer.Pointer? && Events(call, answer) != [] ==> (answer.leak <==> |LiveIn(h, call.stack)| > settings.limit)
  {
    var y := Run(calls, settings);
    var r := After(y.state, call, settings);
    assert (calls + [call])[..|calls|] == calls;
    EveryRunConserves(calls, settings);
    TableIsHistory(calls, settings);
    CallMatches(y.state, y.history, call, settings);
    CallKeepsGood(y.state, call, settings);
    var h := y.history + Events(call, r.answer);
    LiveIsHistory(r.state.items, h, call.stack);
    if r.answer.Pointer? && Events(call, r.answer) != [] {
      assert CountOf(r.state.counts, call.stack) == |Live(r.state.items, call.stack)|;
      LeakIsCount(y.state, call, settings);
    }
  }

  lemma LeakIsCount(s: State, call: Call, settings: Settings)
    requires settings.limit > 0
    ensures var r := After(s, call, settings);
      r.answer.Pointer? && Events(call, r.answer) != [] ==>
          (r.answer.leak <==> CountOf(r.state.counts, call.stack) > settings.limit)
  {
  }

  // ---- where the code does not keep its promise ----------------------------------------------------

  /** A raw realloc that fails is recorded as a move to null: every entry stays backed by a block if and
      only if the raw realloc succeeded. */
  lemma FailedReallocIff(s: State, ptr: Address, count: nat, stack: Stack, raw: Address, inPool: bool,
      settings: Settings)
    requires Good(s, settings.limit) && settings.limit > 0
    requires IsLive(s.items, ptr) && s.items[ptr].typ == Malloc && count != 0 && ptr != 0
    requires raw !in s.owned || raw == ptr
    ensures Backed(AfterRealloc(s, ptr, count, stack, raw, inPool, settings).state) <==> raw != 0
  {
    if raw != 0 {
      ReallocKeepsGood(s, ptr, count, stack, raw, inPool, settings);
    } else {
      ReleaseConserves(s, ptr, s.items[ptr].deallocTrace);
      assert IsLive(AfterRealloc(s, ptr, count, stack, raw, inPool, settings).state.items, 0);
    }
  }

  lemma RunExtends(calls: seq<Call>, call: Call, settings: Settings)
    ensures Run(calls + [call], settings) == Step(Run(calls, settings), call, settings)
    ensures var s := Run(calls, settings).state;
      Legal(calls, settings) && (s.process == Running ==> RawAllocatorKeepsWord(s, call)) ==>
          Legal(calls + [call], settings)
  {
    assert (calls + [call])[..|calls|] == calls;
  }

  /** A run in which realloc fails and the caller then frees the block it still owns. */
  lemma FailedReallocThenFree(stack: Stack, settings: Settings)
    requires DefaultCallback(settings) && settings.limit > 1
    ensures
      var calls := [Alloc(8, Malloc, stack, 100), Realloc(100, 16, stack, 0, false)];
      var s := Run(calls, settings).state;
      var r := AfterDelete(s, 100, Malloc, stack, false, settings);
      s.process == Running && 100 in s.owned && r.answer.Report? && r.answer.what == DoubleFree
  {
    var first, second := Alloc(8, Malloc, stack, 100), Realloc(100, 16, stack, 0, false);
    RunExtends([], first, settings);
    RunExtends([] + [first], second, settings);
    assert [first, second] == [] + [first] + [second];
  }

  /** With limit 0 two allocations from one stack and two correct deletes fail an assertion. */
  lemma LimitZeroFails(stack: Stack, settings: Settings)
    requires settings.limit == 0
    ensures
      var calls := [Alloc(8, New, stack, 100), Alloc(8, New, stack, 200), Delete(100, New, stack, false),
          Delete(200, New, stack, false)];
      Legal(calls, settings) && Run(calls, settings).state.process == AssertFailed
  {
    var first, second := Alloc(8, New, stack, 100), Alloc(8, New, stack, 200);
    var third, fourth := Delete(100, New, stack, false), Delete(200, New, stack, false);
    RunExtends([], first, settings);
    RunExtends([] + [first], second, settings);
    RunExtends([] + [first] + [second], third, settings);
    var s := Run([] + [first] + [second] + [third], settings).state;
    assert s.process == Running && s.counts == map[] && IsLive(s.items, 200);
    RunExtends([] + [first] + [second] + [third], fourth, settings);
    assert [first, second, third, fourth] == [] + [first] + [second] + [third] + [fourth];
  }

  /** With a callback that continues after a mismatch, repeating the delete correctly fails an assertion. */
  lemma ContinuingAfterMismatchFails(stack: Stack, settings: Settings)
    requires FreeMissmatch in settings.continues && settings.limit > 0
    ensures
      var calls := [Alloc(8, New, stack, 100), Delete(100, NewArr, stack, false), Delete(100, New, stack, false)];
      Legal(calls, settings) && Run(calls, settings).state.process == AssertFailed
  {
    var first, second, third := Alloc(8, New, stack, 100), Delete(100, NewArr, stack, false),
        Delete(100, New, stack, false);
    RunExtends([], first, settings);
    RunExtends([] + [first], second, settings);
    var s := Run([] + [first] + [second], settings).state;
    assert s.process == Running && s.counts == map[] && IsLive(s.items, 100);
    RunExtends([] + [first] + [second], third, settings);
    assert [first, second, third] == [] + [first] + [second] + [third];
  }

  /** Two results that differ at most in what the raw allocator has handed out. */
  predicate SameButOwned(r: Result, q: Result) {
    && r.answer == q.answer
    && r.state.items == q.state.items && r.state.counts == q.state.counts && r.state.process == q.state.process
  }

  lemma DeleteIgnoresOwned(s: State, owned: set<Address>, ptr: Address, expected: MemoryType, stack: Stack,
      inPool: bool, settings: Settings)
    ensures SameButOwned(AfterDelete(s, ptr, expected, stack, inPool, settings),
                         AfterDelete(s.(owned := owned), ptr, expected, stack, inPool, settings))
  {
    hide Lowered;
  }

  lemma ReallocIgnoresOwned(s: State, owned: set<Address>, ptr: Address, count: nat, stack: Stack, raw: Address,
      inPool: bool, settings: Settings)
    ensures SameButOwned(AfterRealloc(s, ptr, count, stack, raw, inPool, settings),
                         AfterRealloc(s.(owned := owned), ptr, count, stack, raw, inPool, settings))
  {
    hide Lowered, AfterDelete, Raised;
    DeleteIgnoresOwned(s, owned, ptr, Malloc, stack, inPool, settings);
  }

  /** Neither the tables nor the answer depend on what the raw allocator has handed out. */
  lemma OwnedDoesNotMatter(s: State, owned: set<Address>, call: Call, settings: Settings)
    ensures SameButOwned(After(s, call, settings), After(s.(owned := owned), call, settings))
  {
    hide AfterRealloc, AfterDelete;
    if call.Realloc? {
      ReallocIgnoresOwned(s, owned, call.ptr, call.count, call.stack, call.raw, call.inPool, settings);
    } else if call.Delete? {
      DeleteIgnoresOwned(s, owned, call.ptr, call.expected, call.stack, call.inPool, settings);
    }
  }
}
