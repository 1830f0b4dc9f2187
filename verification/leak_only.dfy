/** The leak-only tracker, call by call: which addresses it holds and how often each stack was seen. */
module LeakOnlySpec {
  import opened Stacks
  import opened TrackerSpec

  /** s_pMem and s_pStack with their stacks as values. */
  datatype View = View(entries: map<Address, Stack>, counts: Counts, process: Process)

  const EMPTY: View := View(map[], map[], Running)

  /** What a build compiles in: assertions, or the removal of a stale entry instead; and the limit. */
  datatype Build = Build(asserts: bool, limit: nat)

  function TakenOut(v: View, at: Address): View
    requires at in v.entries
  {
    var stack := v.entries[at];
    View(v.entries - {at}, if CountOf(v.counts, stack) == 0 then v.counts else Lowered(v.counts, stack), v.process)
  }

  /** `late` says that the clock has not gone back behind the start of the process. */
  function Added(v: View, at: Address, stack: Stack, limit: nat, late: bool): View {
    var n := CountOf(v.counts, stack) + 1;
    View(v.entries[at := stack], v.counts[stack := n],
         if stack in v.counts && n > limit && late then Exited(PossibilityOfMemoryLeak) else v.process)
  }

  function LeakAlloc(v: View, raw: Address, captured: Option<Stack>, late: bool, build: Build): View {
    if raw == 0 || captured == None then v
    else if raw in v.entries && build.asserts then v.(process := AssertFailed)
    else Added(if raw in v.entries then TakenOut(v, raw) else v, raw, captured.value, build.limit, late)
  }

  function AfterFree(v: View, ptr: Address): View {
    if ptr in v.entries then TakenOut(v, ptr) else v
  }

  // ---- counting ------------------------------------------------------------------------------------

  function From(entries: map<Address, Stack>, stack: Stack): set<Address> {
    set a | a in entries && entries[a] == stack
  }

  ghost predicate Counted(v: View) {
    forall stack :: CountOf(v.counts, stack) == |From(v.entries, stack)| && (stack in v.counts ==> v.counts[stack] > 0)
  }

  lemma CountedWhatever(v: View, process: Process)
    requires Counted(v)
    ensures Counted(v.(process := process))
  {
  }

  lemma FromWithout(entries: map<Address, Stack>, at: Address, other: Stack)
    requires at in entries
    ensures From(entries - {at}, other) == From(entries, other) - (if entries[at] == other then {at} else {})
    ensures entries[at] == other ==> at in From(entries, other)
  {
  }

  lemma FromWith(entries: map<Address, Stack>, at: Address, stack: Stack, other: Stack)
    requires at !in entries
    ensures From(entries[at := stack], other) == From(entries, other) + (if other == stack then {at} else {})
    ensures at !in From(entries, other)
  {
  }

  lemma TakingOutKeepsCounted(v: View, at: Address)
    requires Counted(v) && at in v.entries
    ensures Counted(TakenOut(v, at))
    ensures CountOf(v.counts, v.entries[at]) != 0
  {
    hide From;
    var stack := v.entries[at];
    FromWithout(v.entries, at, stack);
    assert CountOf(v.counts, stack) == |From(v.entries, stack)|;
    forall other {
      FromWithout(v.entries, at, other);
    }
  }

  lemma AddingKeepsCounted(v: View, at: Address, stack: Stack, limit: nat, late: bool)
    requires Counted(v) && at !in v.entries
    ensures Counted(Added(v, at, stack, limit, late))
  {
    hide From;
    assert CountOf(v.counts, stack) == |From(v.entries, stack)|;
    forall other {
      FromWith(v.entries, at, stack, other);
    }
  }

  /** Every allocation keeps the counts right, also where an address that libc reused still has a stale
      entry, and reports a leak if and only if, counting itself, the stack has more entries than the
      limit and more than one. */
  lemma AllocKeepsCounted(v: View, raw: Address, captured: Option<Stack>, late: bool, build: Build)
    requires Counted(v) && v.process == Running
    ensures var x := LeakAlloc(v, raw, captured, late, build);
      && Counted(x)
      && (x.process == AssertFailed <==> raw != 0 && captured.Some? && raw in v.entries && build.asserts)
      && (x.process == Exited(PossibilityOfMemoryLeak) <==>
            && raw != 0 && captured.Some? && x.process != AssertFailed && late
            && |From(x.entries, captured.value)| > 1 && |From(x.entries, captured.value)| > build.limit)
  {
    if raw != 0 && captured.Some? && !(raw in v.entries && build.asserts) {
      var stack := captured.value;
      if raw in v.entries { TakingOutKeepsCounted(v, raw); }
      var cleared := if raw in v.entries then TakenOut(v, raw) else v;
      AddingKeepsCounted(cleared, raw, stack, build.limit, late);
      var x := LeakAlloc(v, raw, captured, late, build);
      assert CountOf(x.counts, stack) == |From(x.entries, stack)|;
    }
  }

  lemma FreeKeepsCounted(v: View, ptr: Address)
    requires Counted(v)
    ensures Counted(AfterFree(v, ptr)) && ptr !in AfterFree(v, ptr).entries
  {
    if ptr in v.entries { TakingOutKeepsCounted(v, ptr); }
  }

  // ---- every run, against its own history --------------------------------------------------------

  datatype LeakCall = Allocate(raw: Address, captured: Option<Stack>, late: bool) | Deallocate(ptr: Address)

  function Next(v: View, call: LeakCall, build: Build): View {
    if v.process != Running then v
    else
      match call
      case Allocate(raw, captured, late) => LeakAlloc(v, raw, captured, late, build)
      case Deallocate(ptr) => AfterFree(v, ptr)
  }

  function RunLeak(calls: seq<LeakCall>, build: Build): View {
    if calls == [] then EMPTY else Next(RunLeak(calls[..|calls| - 1], build), calls[|calls| - 1], build)
  }

  /** The stack from which an address was last allocated, unless it was freed since; read off the calls
      alone. An allocation whose stack could not be captured leaves no trace. */
  function Origin(calls: seq<LeakCall>, a: Address): Option<Stack> {
    if calls == [] then None
    else
      match calls[|calls| - 1]
      case Allocate(raw, captured, _) =>
        if raw == a && a != 0 && captured.Some? then captured else Origin(calls[..|calls| - 1], a)
      case Deallocate(ptr) => if ptr == a then None else Origin(calls[..|calls| - 1], a)
  }

  function Outstanding(calls: seq<LeakCall>, stack: Stack): set<Address> {
    set c | c in calls && c.Allocate? && Origin(calls, c.raw) == Some(stack) :: c.raw
  }

  ghost predicate Remembers(v: View, calls: seq<LeakCall>) {
    forall a: Address :: Origin(calls, a) == if a in v.entries then Some(v.entries[a]) else None
  }

  lemma {:induction false} OriginAllocated(calls: seq<LeakCall>, a: Address)
    requires Origin(calls, a).Some?
    ensures exists c :: c in calls && c.Allocate? && c.raw == a
  {
    var last := calls[|calls| - 1];
    if !(last.Allocate? && last.raw == a && a != 0 && last.captured.Some?) {
      OriginAllocated(calls[..|calls| - 1], a);
    } else {
      assert last in calls;
    }
  }

  lemma OutstandingIsFrom(v: View, calls: seq<LeakCall>, stack: Stack)
    requires Remembers(v, calls)
    ensures Outstanding(calls, stack) == From(v.entries, stack)
  {
    forall a | a in From(v.entries, stack)
      ensures a in Outstanding(calls, stack)
    {
      OriginAllocated(calls, a);
    }
  }

  lemma NextRemembers(v: View, calls: seq<LeakCall>, call: LeakCall, build: Build)
    requires v.process == Running && Remembers(v, calls)
    ensures var x := Next(v, call, build); x.process != AssertFailed ==> Remembers(x, calls + [call])
  {
    hide CountOf, Lowered;
    assert (calls + [call])[..|calls|] == calls;
  }

  /** As long as the process runs, the table holds exactly the outstanding allocations with their
      stacks, and the counts are right. */
  lemma {:induction false} EveryRunRemembers(calls: seq<LeakCall>, build: Build)
    ensures var v := RunLeak(calls, build); v.process == Running ==> Remembers(v, calls) && Counted(v)
  {
    if calls != [] {
      var before, last := calls[..|calls| - 1], calls[|calls| - 1];
      EveryRunRemembers(before, build);
      var v := RunLeak(before, build);
      if v.process == Running {
        NextRemembers(v, before, last, build);
        assert before + [last] == calls;
        match last
        case Allocate(raw, captured, late) => AllocKeepsCounted(v, raw, captured, late, build);
        case Deallocate(ptr) => FreeKeepsCounted(v, ptr);
      }
    }
  }

  /** After every run, the next tracked allocation fails the assertion if and only if its address is still
      outstanding and assertions are compiled in; otherwise it reports a leak if and only if, with itself,
      more allocations from an equal stack are outstanding than the limit, and more than one. */
  lemma LeakReportExact(calls: seq<LeakCall>, raw: Address, stack: Stack, late: bool, build: Build)
    requires RunLeak(calls, build).process == Running && raw != 0
    ensures
      var call := Allocate(raw, Some(stack), late);
      var x := RunLeak(calls + [call], build);
      var n := |Outstanding(calls + [call], stack)|;
      && (x.process == AssertFailed <==> Origin(calls, raw).Some? && build.asserts)
      && (x.process != AssertFailed ==>
          (x.process == Exited(PossibilityOfMemoryLeak) <==> late && n > 1 && n > build.limit))
  {
    var call := Allocate(raw, Some(stack), late);
    assert (calls + [call])[..|calls|] == calls;
    EveryRunRemembers(calls, build);
    var v := RunLeak(calls, build);
    AllocKeepsCounted(v, raw, Some(stack), late, build);
    NextRemembers(v, calls, call, build);
    var x := Next(v, call, build);
    if x.process != AssertFailed {
      OutstandingIsFrom(x, calls + [call], stack);
    }
  }
}

/** The leak-only tracker as the object it is, with the Backtrace objects that it allocates and frees. */
module LeakOnly {
  import opened Stacks
  import opened TrackerSpec
  import opened LeakOnlySpec

  class Backtrace {
    const frames: Stack

    constructor (frames: Stack)
      ensures this.frames == frames
    {
      this.frames := frames;
    }
  }

  type Entries = map<Address, Backtrace>
  type KeyTable = map<Backtrace, nat>

  function Objects(mem: Entries): set<Backtrace> {
    mem.Values
  }

  function KeyObjects(stacks: KeyTable): set<Backtrace> {
    stacks.Keys
  }

  /** The table holds these entries, and no two of them share an object. */
  ghost predicate OwnsEntries(mem: Entries, entries: map<Address, Stack>) {
    && mem.Keys == entries.Keys
    && (forall a :: a in mem ==> mem[a].frames == entries[a])
    && (forall a, b :: a in mem && b in mem && mem[a] == mem[b] ==> a == b)
  }

  /** The key objects are those of `keyOf`, one for each counted stack, with that stack's count. */
  ghost predicate OwnsKeys(stacks: KeyTable, counts: Counts, keyOf: map<Stack, Backtrace>) {
    && keyOf.Keys == counts.Keys
    && (forall s :: s in keyOf ==> keyOf[s] in stacks && keyOf[s].frames == s && stacks[keyOf[s]] == counts[s])
    && (forall k :: k in stacks ==> k.frames in keyOf && keyOf[k.frames] == k)
  }

  lemma EntryFound(mem: Entries, entries: map<Address, Stack>, at: Address)
    requires OwnsEntries(mem, entries)
    ensures at in mem <==> at in entries
    ensures at in mem ==> mem[at].frames == entries[at]
  {
  }

  lemma EntryDropped(mem: Entries, entries: map<Address, Stack>, at: Address)
    requires OwnsEntries(mem, entries) && at in mem
    ensures OwnsEntries(mem - {at}, entries - {at})
    ensures Objects(mem - {at}) == Objects(mem) - {mem[at]} && mem[at] in Objects(mem)
  {
    forall b | b in mem.Values && b != mem[at]
      ensures b in (mem - {at}).Values
    {
      var a :| a in mem && mem[a] == b;
      assert a in mem - {at} && (mem - {at})[a] == b;
    }
  }

  lemma EntryAdded(mem: Entries, entries: map<Address, Stack>, at: Address, b: Backtrace)
    requires OwnsEntries(mem, entries) && at !in mem && b !in Objects(mem)
    ensures OwnsEntries(mem[at := b], entries[at := b.frames])
    ensures Objects(mem[at := b]) == Objects(mem) + {b}
  {
    var more := mem[at := b];
    forall c | c in mem.Values
      ensures c in more.Values
    {
      var a :| a in mem && mem[a] == c;
      assert more[a] == c;
    }
    assert more[at] == b;
  }

  lemma KeyFound(stacks: KeyTable, counts: Counts, keyOf: map<Stack, Backtrace>, stack: Stack)
    requires OwnsKeys(stacks, counts, keyOf)
    ensures stack in keyOf <==> stack in counts
    ensures stack in keyOf ==>
        keyOf[stack] in stacks && keyOf[stack] in KeyObjects(stacks) && stacks[keyOf[stack]] == counts[stack]
  {
  }

  lemma KeyDropped(stacks: KeyTable, counts: Counts, keyOf: map<Stack, Backtrace>, stack: Stack)
    requires OwnsKeys(stacks, counts, keyOf) && stack in keyOf
    ensures OwnsKeys(stacks - {keyOf[stack]}, counts - {stack}, keyOf - {stack})
    ensures KeyObjects(stacks - {keyOf[stack]}) == KeyObjects(stacks) - {keyOf[stack]}
  {
  }

  lemma KeyCounted(stacks: KeyTable, counts: Counts, keyOf: map<Stack, Backtrace>, stack: Stack, n: nat)
    requires OwnsKeys(stacks, counts, keyOf) && stack in keyOf
    ensures OwnsKeys(stacks[keyOf[stack] := n], counts[stack := n], keyOf)
    ensures KeyObjects(stacks[keyOf[stack] := n]) == KeyObjects(stacks)
  {
  }

  lemma KeyAdded(stacks: KeyTable, counts: Counts, keyOf: map<Stack, Backtrace>, clone: Backtrace, n: nat)
    requires OwnsKeys(stacks, counts, keyOf) && clone !in KeyObjects(stacks) && clone.frames !in counts
    ensures OwnsKeys(stacks[clone := n], counts[clone.frames := n], keyOf[clone.frames := clone])
    ensures KeyObjects(stacks[clone := n]) == KeyObjects(stacks) + {clone}
  {
  }

  /** The allocated objects are those of the entries, the keys, and `more`, all of them distinct. */
  ghost predicate Accounted(objects: set<Backtrace>, keys: set<Backtrace>, more: set<Backtrace>, live: set<Backtrace>) {
    && objects !! keys && objects !! more && keys !! more
    && live == objects + keys + more
  }

  lemma ObjectFreed(objects: set<Backtrace>, keys: set<Backtrace>, more: set<Backtrace>, live: set<Backtrace>,
      b: Backtrace)
    requires Accounted(objects, keys, more, live) && b in objects
    ensures b in live && Accounted(objects - {b}, keys, more, live - {b})
  {
  }

  lemma KeyFreed(objects: set<Backtrace>, keys: set<Backtrace>, more: set<Backtrace>, live: set<Backtrace>,
      b: Backtrace)
    requires Accounted(objects, keys, more, live) && b in keys
    ensures b in live && Accounted(objects, keys - {b}, more, live - {b})
  {
  }

  lemma ObjectStored(objects: set<Backtrace>, keys: set<Backtrace>, live: set<Backtrace>, b: Backtrace)
    requires Accounted(objects, keys, {b}, live)
    ensures b !in objects && Accounted(objects + {b}, keys, {}, live)
  {
  }

  lemma KeyAllocated(objects: set<Backtrace>, keys: set<Backtrace>, more: set<Backtrace>, live: set<Backtrace>,
      b: Backtrace)
    requires Accounted(objects, keys, more, live) && b !in live
    ensures b !in keys && Accounted(objects, keys + {b}, more, live + {b})
  {
  }

  lemma CaptureAllocated(objects: set<Backtrace>, keys: set<Backtrace>, live: set<Backtrace>, b: Backtrace)
    requires Accounted(objects, keys, {}, live) && b !in live
    ensures Accounted(objects, keys, {b}, live + {b})
  {
  }

  lemma CaptureIsLive(objects: set<Backtrace>, keys: set<Backtrace>, live: set<Backtrace>, b: Backtrace)
    requires Accounted(objects, keys, {b}, live)
    ensures b in live
  {
  }

  class Analyzer {
    /** s_pMem: it owns its Backtrace objects. */
    var mem: Entries
    /** s_pStack: it owns its keys, which are clones. */
    var stacks: KeyTable
    var process: Process
    /** IntHandler's counter, the mutex, and the flags that switch tracking off. */
    var ongoing: nat
    var holding: bool
    var initOrExitOngoing: bool
    var ignoreThisStack: bool
    const build: Build

    /** The Backtrace objects that were allocated and not yet freed. */
    ghost var live: set<Backtrace>
    /** The tables with stacks as values, and the key object of each counted stack. */
    ghost var view: View
    ghost var keyOf: map<Stack, Backtrace>
    /** The addresses that went to the raw free. */
    ghost var rawFreed: seq<Address>

    /** The allocated objects are those that the tables own, and `more`. */
    ghost predicate Accounts(more: set<Backtrace>)
      reads this`mem, this`stacks, this`live
    {
      Accounted(Objects(mem), KeyObjects(stacks), more, live)
    }

    ghost predicate Owning()
      reads this`mem, this`stacks, this`view, this`keyOf
    {
      OwnsEntries(mem, view.entries) && OwnsKeys(stacks, view.counts, keyOf)
    }

    /** Exactly the objects that the tables own are allocated, and the counts are right. A failed
        assertion leaves behind the Backtrace that was just captured. */
    ghost predicate Valid()
      reads this
    {
      && Owning() && Counted(view) && view.process == process
      && if process == AssertFailed then exists b :: b in live && Accounts({b}) else Accounts({})
    }

    constructor (build: Build)
      ensures Valid() && view == EMPTY && live == {} && rawFreed == [] && this.build == build
      ensures !holding && ongoing == 0 && !initOrExitOngoing && !ignoreThisStack
    {
      mem, stacks, process := map[], map[], Running;
      ongoing, holding, initOrExitOngoing, ignoreThisStack := 0, false, false, false;
      this.build := build;
      live, view, keyOf, rawFreed := {}, EMPTY, map[], [];
    }

    /** InitBacktraceDataForCurrentStack, for the stack that it captures, and CloneBackTrace. */
    method NewBacktrace(frames: Stack) returns (b: Backtrace)
      modifies this`live
      ensures fresh(b) && b.frames == frames && live == old(live) + {b}
    {
      b := new Backtrace(frames);
      live := live + {b};
    }

    /** An object is freed at most once: it must still be allocated. */
    method FreeBacktraceData(b: Backtrace)
      requires b in live
      modifies this`live
      ensures live == old(live) - {b}
    {
      live := live - {b};
    }

    method FindStack(frames: Stack) returns (key: Option<Backtrace>)
      requires OwnsKeys(stacks, view.counts, keyOf)
      ensures key == if frames in keyOf then Some(keyOf[frames]) else None
    {
      if k :| k in stacks.Keys && k.frames == frames {
        return Some(k);
      }
      return None;
    }

    /** Takes a stack out of the counts once, and frees the key object with its last count. */
    method TakeStackOut(frames: Stack, ghost more: set<Backtrace>)
      requires OwnsKeys(stacks, view.counts, keyOf) && Accounts(more) && CountOf(view.counts, frames) != 0
      modifies this`stacks, this`live, this`view, this`keyOf
      ensures OwnsKeys(stacks, view.counts, keyOf) && Accounts(more)
      ensures view == old(view).(counts := Lowered(old(view).counts, frames))
      ensures live <= old(live)
    {
      hide Accounted, OwnsKeys, Objects, KeyObjects;
      var found := FindStack(frames);
      KeyFound(stacks, view.counts, keyOf, frames);
      var key := found.value;
      if stacks[key] == 1 {
        KeyFreed(Objects(mem), KeyObjects(stacks), more, live, key);
        KeyDropped(stacks, view.counts, keyOf, frames);
        stacks := stacks - {key};
        keyOf, view := keyOf - {frames}, view.(counts := view.counts - {frames});
        FreeBacktraceData(key);
      } else {
        KeyCounted(stacks, view.counts, keyOf, frames, stacks[key] - 1);
        stacks := stacks[key := stacks[key] - 1];
        view := view.(counts := view.counts[frames := view.counts[frames] - 1]);
      }
    }

    /** What both the free path and the stale-entry path do with an entry. */
    method TakeEntryOut(at: Address, ghost more: set<Backtrace>)
      requires Owning() && Accounts(more) && Counted(view) && at in mem
      modifies this`mem, this`stacks, this`live, this`view, this`keyOf
      ensures Owning() && Accounts(more) && Counted(view)
      ensures view == TakenOut(old(view), at) && view.process == old(view).process && at !in mem
      ensures live < old(live)
    {
      hide Accounted, OwnsKeys, OwnsEntries, Objects, KeyObjects, Counted, Lowered, CountOf;
      EntryFound(mem, view.entries, at);
      TakingOutKeepsCounted(view, at);
      TakeStackOut(mem[at].frames, more);
      var removed := mem[at];
      EntryDropped(mem, view.entries, at);
      ObjectFreed(Objects(mem), KeyObjects(stacks), more, live, removed);
      mem := mem - {at};
      view := view.(entries := view.entries - {at});
      FreeBacktraceData(removed);
    }

    /** The count of an entry's stack goes up by one; the first one comes with a clone as its key. */
    method CountStack(ghost at: Address, b: Backtrace, late: bool, ghost more: set<Backtrace>)
      requires OwnsKeys(stacks, view.counts, keyOf) && Accounts(more) && process == view.process
      modifies this`stacks, this`live, this`view, this`keyOf, this`process, this`holding
      ensures OwnsKeys(stacks, view.counts, keyOf) && Accounts(more)
      ensures view == Added(old(view), at, b.frames, build.limit, late).(entries := old(view).entries)
      ensures process == view.process
      ensures fresh(live - old(live))
    {
      hide Accounted, OwnsKeys, Objects, KeyObjects;
      var found := FindStack(b.frames);
      KeyFound(stacks, view.counts, keyOf, b.frames);
      if found.None? {
        ghost var before := live;
        var clone := NewBacktrace(b.frames);
        KeyAllocated(Objects(mem), KeyObjects(stacks), more, before, clone);
        KeyAdded(stacks, view.counts, keyOf, clone, 1);
        stacks := stacks[clone := 1];
        view := view.(counts := view.counts[b.frames := 1]);
        keyOf := keyOf[b.frames := clone];
      } else {
        var key := found.value;
        KeyCounted(stacks, view.counts, keyOf, b.frames, stacks[key] + 1);
        stacks := stacks[key := stacks[key] + 1];
        view := view.(counts := view.counts[b.frames := view.counts[b.frames] + 1]);
        if stacks[key] > build.limit && late {
          holding := false;
          process := Exited(PossibilityOfMemoryLeak);
          view := view.(process := process);
        }
      }
    }

    method AddEntry(at: Address, b: Backtrace, late: bool)
      requires Owning() && Accounts({b}) && Counted(view) && view.process == process && at !in mem
      modifies this`mem, this`stacks, this`live, this`view, this`keyOf, this`process, this`holding
      ensures Owning() && Accounts({}) && Counted(view) && view.process == process
      ensures view == Added(old(view), at, b.frames, build.limit, late)
      ensures process == old(process) || process.Exited?
      ensures fresh(live - old(live))
    {
      hide Accounted, OwnsKeys, OwnsEntries, Objects, KeyObjects, Counted, CountOf;
      EntryFound(mem, view.entries, at);
      AddingKeepsCounted(view, at, b.frames, build.limit, late);
      ObjectStored(Objects(mem), KeyObjects(stacks), live, b);
      EntryAdded(mem, view.entries, at, b);
      mem := mem[at := b];
      view := view.(entries := view.entries[at := b.frames]);
      CountStack(at, b, late, {});
    }

    /** AllocMem's critical section, for a block and a stack that were both obtained. */
    method RecordBlock(raw: Address, b: Backtrace, late: bool)
      requires Owning() && Accounts({b}) && Counted(view) && view.process == process == Running && holding && raw != 0
      modifies this
      ensures Valid() && !holding && ongoing == old(ongoing)
      ensures initOrExitOngoing == old(initOrExitOngoing) && ignoreThisStack == old(ignoreThisStack)
      ensures fresh(live - old(live))
      ensures view == LeakAlloc(old(view), raw, Some(b.frames), late, build)
    {
      hide Accounted, OwnsKeys, OwnsEntries, Objects, KeyObjects, Counted, TakenOut, Added;
      EntryFound(mem, view.entries, raw);
      if raw in mem && build.asserts {
        CountedWhatever(view, AssertFailed);
        process := AssertFailed;
        view := view.(process := process);
        assert Accounts({b}) && b in live by { CaptureIsLive(Objects(mem), KeyObjects(stacks), live, b); }
      } else {
        if raw in mem {
          TakeEntryOut(raw, {b});
        }
        AddEntry(raw, b, late);
      }
      holding := false;
    }

    /** AllocMem, with what malloc returned (0 for null) and the stack that was captured, if any. */
    method AllocMem(raw: Address, captured: Option<Stack>, late: bool)
      requires Valid() && process == Running && !holding
      modifies this
      ensures Valid() && !holding && ongoing == old(ongoing)
      ensures initOrExitOngoing == old(initOrExitOngoing) && ignoreThisStack == old(ignoreThisStack)
      ensures fresh(live - old(live))
      ensures view == if old(initOrExitOngoing || ongoing > 0 || ignoreThisStack) then old(view)
                      else LeakAlloc(old(view), raw, captured, late, build)
    {
      hide Accounted, OwnsKeys, OwnsEntries, Objects, KeyObjects, Counted, TakenOut, Added;
      if initOrExitOngoing || ongoing > 0 || ignoreThisStack {
        return;
      }
      ongoing := ongoing + 1;
      if raw != 0 && captured.Some? {
        ghost var before := live;
        var b := NewBacktrace(captured.value);
        CaptureAllocated(Objects(mem), KeyObjects(stacks), before, b);
        holding := true;
        RecordBlock(raw, b, late);
      }
      ongoing := ongoing - 1;
      initOrExitOngoing := false;
    }

    /** FreeMemAnalyze, as the outermost tracked call of its thread. */
    method FreeMemAnalyze(ptr: Address)
      requires Valid() && process == Running && !holding
      modifies this
      ensures Valid() && !holding && ongoing == old(ongoing)
      ensures initOrExitOngoing == old(initOrExitOngoing) && ignoreThisStack == old(ignoreThisStack)
      ensures live <= old(live)
      ensures view == if old(initOrExitOngoing) then old(view) else AfterFree(old(view), ptr)
      ensures rawFreed == old(rawFreed)
    {
      hide Accounted, OwnsKeys, OwnsEntries, Objects, KeyObjects, Counted, TakenOut;
      if initOrExitOngoing {
        return;
      }
      EntryFound(mem, view.entries, ptr);
      ongoing := ongoing + 1;
      holding := true;
      if ptr in mem {
        TakeEntryOut(ptr, {});
      }
      holding := false;
      ongoing := ongoing - 1;
      initOrExitOngoing := false;
    }

    /** FreeMem: every address goes to the raw free once, and only after its entry is gone. */
    method FreeMem(ptr: Address)
      requires Valid() && process == Running && !holding
      modifies this
      ensures Valid() && !holding && ongoing == old(ongoing)
      ensures initOrExitOngoing == old(initOrExitOngoing) && ignoreThisStack == old(ignoreThisStack)
      ensures live <= old(live)
      ensures rawFreed == old(rawFreed) + [ptr]
      ensures old(initOrExitOngoing) ==> view == old(view)
      ensures !old(initOrExitOngoing) ==> view == AfterFree(old(view), ptr) && ptr !in mem && ptr !in view.entries
    {
      hide Accounted, OwnsKeys, Objects, KeyObjects, Counted;
      FreeMemAnalyze(ptr);
      EntryFound(mem, view.entries, ptr);
      rawFreed := rawFreed + [ptr];
    }
  }
}
