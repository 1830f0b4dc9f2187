/** The allocation tracker as the object it is: two tables, a mutex and the flag of one thread. The stack
    table is the hash table itself, with line 84 as written or repaired. As written, a call is promised
    anything only if the removal that it comes to, if any, is safe; StackItems says what goes wrong
    otherwise. */
module Tracker {
  import opened Words
  import opened Stacks
  import opened TrackerSpec
  import opened StackItems
  import HashItems

  /** The calls that a tracked call provokes itself, at the three moments when it can: before it takes
      the mutex (stack capture, the raw allocator), while it holds it (the tables' own memory), and after
      it has given it back (the failure callback). Each of them may provoke further calls. */
  datatype Inner = Inner(before: seq<Nested>, locked: seq<Nested>, after: seq<Nested>)
  datatype Nested = Nested(call: Call, inner: Inner)

  datatype Moment = BeforeLock | UnderLock | AfterLock

  function At(inner: Inner, moment: Moment): seq<Nested> {
    match moment
    case BeforeLock => inner.before
    case UnderLock => inner.locked
    case AfterLock => inner.after
  }

  /** The calls of mallocn, callocn, reallocn and freen, and of libc's own functions for addresses that the
      table does not know. */
  datatype RawCall =
    | RawMalloc(count: nat)
    | RawCalloc(nmemb: nat, size: nat)
    | RawRealloc(at: Address, count: nat)
    | RawFree(at: Address)
    | LibcRealloc(at: Address, count: nat)
    | LibcFree(at: Address)

  /** What a call presented with the flag set hands on. */
  function HandedOn(call: Call): RawCall {
    match call
    case Alloc(count, _, _, _) => RawMalloc(count)
    case Calloc(nmemb, size, _, _) => RawCalloc(nmemb, size)
    case Realloc(ptr, count, _, _, _) => RawRealloc(ptr, count)
    case Delete(ptr, _, _, _) => RawFree(ptr)
  }

  /** The raw calls of a request for `count` bytes, of a delete, and of a realloc to a positive size. */
  function DeleteCalls(ptr: Address, inPool: bool, answer: Answer): seq<RawCall> {
    if answer.Freed? then [RawFree(ptr)] else if answer.Passed? && !inPool then [LibcFree(ptr)] else []
  }

  function ReallocCalls(items: Items, ptr: Address, count: nat, inPool: bool): seq<RawCall> {
    if IsLive(items, ptr) && items[ptr].typ == Malloc then [RawRealloc(ptr, count)]
    else if ptr !in items && !inPool then [LibcRealloc(ptr, count)]
    else []
  }

  function RawCalls(items: Items, call: Call, answer: Answer): seq<RawCall> {
    match call
    case Alloc(count, _, _, _) => if count == 0 then [] else [RawMalloc(count)]
    case Calloc(nmemb, size, _, _) =>
      if nmemb * size % 0x1_0000_0000_0000_0000 == 0 then [] else [RawCalloc(nmemb, size)]
    case Realloc(ptr, count, _, _, inPool) =>
      if ptr == 0 then (if count == 0 then [] else [RawMalloc(count)])
      else if count == 0 then DeleteCalls(ptr, inPool, answer)
      else ReallocCalls(items, ptr, count, inPool)
    case Delete(ptr, _, _, inPool) => if ptr == 0 then [] else DeleteCalls(ptr, inPool, answer)
  }

  class CrashInvestAnalizer {
    var memoryItems: map<Address, Item>
    const stackItems: StackTable
    var process: Process
    const settings: Settings
    /** Whether line 84 is repaired in the stack table. */
    const repaired: bool
    /** s_bIsAllocingOrDeallocing. */
    var busy: bool
    /** Whether this thread holds the mutex, which must not be taken twice. */
    var holding: bool
    ghost var rawCalls: seq<RawCall>
    /** What calls presented with the flag set have handed on. */
    ghost var handed: seq<RawCall>

    ghost function Tables(): State
      reads this`memoryItems, this`process, stackItems`view
    {
      State(memoryItems, stackItems.view.contents, {}, process)
    }

    /** The effect of one whole call on tables and process. */
    function Expected(s: State, call: Call): Result {
      var r := After(s, call, settings);
      Result(r.state.(owned := {}), r.answer)
    }

    /** Both tables are in order: every entry holds its own address. */
    ghost predicate Ready()
      reads this`memoryItems, stackItems, stackItems.items, stackItems.nodes
    {
      InOrder(stackItems, repaired) && forall a :: a in memoryItems ==> memoryItems[a].realAddress == a
    }

    /** The last thing that was handed on with the flag set. */
    twostate predicate Handed(c: RawCall)
      reads this`handed
    {
      |handed| > |old(handed)| && old(handed) <= handed && handed[|handed| - 1] == c
    }

    /** The stack table is repaired, or taking out the stack of this address's live entry is safe. */
    ghost predicate RemovalSafe(target: Address)
      reads this`memoryItems, stackItems, stackItems.items, stackItems.nodes
    {
      repaired || (IsLive(memoryItems, target) ==> SafeToTakeOut(stackItems, memoryItems[target].allocTrace))
    }

    twostate predicate StackTableSame()
      reads stackItems, stackItems.items, stackItems.nodes
    {
      unchanged(stackItems) && unchanged(stackItems.items) && unchanged(stackItems.nodes)
    }

    constructor (settings: Settings, repaired: bool)
      ensures Ready() && fresh(stackItems) && fresh(stackItems.items) && stackItems.nodes == {}
      ensures Tables() == START && !busy && !holding && rawCalls == [] && handed == []
      ensures this.settings == settings && this.repaired == repaired
    {
      hide HashItems.HashItemsByPtr.Valid, HashItems.HashItemsByPtr.AsWritten;
      memoryItems, process := map[], Running;
      stackItems := new HashItems.HashItemsByPtr(StackHash);
      this.settings, this.repaired := settings, repaired;
      busy, holding, rawCalls, handed := false, false, [], [];
    }

    method Lock()
      requires !holding
      modifies this`holding
      ensures holding
    {
      hide InOrder, SafeToTakeOut;
      holding := true;
    }

    lemma RegisterIgnoresOwned(s: State, q: State, typ: MemoryType, at: Address, stack: Stack, settings: Settings)
      requires q.(owned := s.owned) == s
      ensures var r, p := Register(s, typ, at, stack, settings), Register(q, typ, at, stack, settings);
        r.answer == p.answer && r.state == p.state.(owned := s.owned)
    {
    }

    method Unlock()
      requires holding
      modifies this`holding
      ensures !holding
    {
      hide InOrder, SafeToTakeOut;
      holding := false;
    }

    /** freen, as the success path of delete calls it: only after the mutex has been given back. */
    method Freen(at: Address, inner: Inner)
      requires busy && !holding
      requires Ready()
      modifies this, stackItems, stackItems.items, stackItems.nodes
      ensures Ready() && fresh(stackItems.nodes - old(stackItems.nodes))
      ensures busy && !holding && Tables() == old(Tables()) && rawCalls == old(rawCalls) + [RawFree(at)]
      ensures old(handed) <= handed
      decreases inner, 1
    {
      hide InOrder, SafeToTakeOut;
      rawCalls := rawCalls + [RawFree(at)];
      PerformInner(inner, AfterLock);
    }

    /** reallocn, as realloc calls it: while it holds the mutex. */
    method Reallocn(at: Address, count: nat, inner: Inner)
      requires busy && holding
      requires Ready()
      modifies this, stackItems, stackItems.items, stackItems.nodes
      ensures Ready() && fresh(stackItems.nodes - old(stackItems.nodes))
      ensures busy && holding && Tables() == old(Tables()) && rawCalls == old(rawCalls) + [RawRealloc(at, count)]
      ensures StackTableSame()
      ensures old(handed) <= handed
      decreases inner, 1
    {
      hide InOrder, SafeToTakeOut;
      rawCalls := rawCalls + [RawRealloc(at, count)];
      PerformInner(inner, UnderLock);
    }

    /** Any call, with the calls that it provokes: the flag is as before, the mutex is given back, and the
        tables change exactly as by this call alone. With the flag set nothing is tracked at all. */
    method Perform(call: Call, inner: Inner) returns (answer: Answer)
      requires !busy ==> RemovalSafe(Target(call))
      requires !busy ==> !holding
      requires Ready()
      modifies this, stackItems, stackItems.items, stackItems.nodes
      ensures Ready() && fresh(stackItems.nodes - old(stackItems.nodes))
      ensures busy == old(busy) && holding == old(holding)
      ensures old(busy) ==> Tables() == old(Tables()) && rawCalls == old(rawCalls) && StackTableSame()
      ensures old(handed) <= handed
      ensures old(busy) && !(call.Delete? && call.ptr == 0) ==> Handed(HandedOn(call)) && answer.Passed?
      ensures !old(busy) ==> Result(Tables(), answer) == Expected(old(Tables()), call)
      ensures !old(busy) ==> rawCalls == old(rawCalls) + RawCalls(old(memoryItems), call, answer)
      decreases inner, 7
    {
      hide InOrder, SafeToTakeOut;
      match call
      case Alloc(count, typ, stack, raw) =>
        answer := TestOperatorAlloc(count, typ, stack, raw, inner);
      case Calloc(nmemb, size, stack, raw) =>
        answer := TestOperatorCalloc(nmemb, size, stack, raw, inner);
      case Realloc(ptr, count, stack, raw, inPool) =>
        answer := TestOperatorReAlloc(ptr, count, stack, raw, inPool, inner);
      case Delete(ptr, expected, stack, inPool) =>
        answer := TestOperatorDelete(ptr, expected, stack, inPool, inner);
    }

    /** The calls provoked at one moment, while the flag is set. */
    method PerformInner(inner: Inner, moment: Moment)
      requires busy
      requires Ready()
      modifies this, stackItems, stackItems.items, stackItems.nodes
      ensures Ready() && fresh(stackItems.nodes - old(stackItems.nodes))
      ensures busy && holding == old(holding) && Tables() == old(Tables()) && rawCalls == old(rawCalls)
      ensures StackTableSame()
      ensures old(handed) <= handed
      decreases inner, 0
    {
      hide InOrder, SafeToTakeOut;
      var nested := At(inner, moment);
      for i := 0 to |nested|
        invariant Ready() && fresh(stackItems.nodes - old(stackItems.nodes))
        invariant busy && holding == old(holding) && Tables() == old(Tables()) && rawCalls == old(rawCalls)
        invariant StackTableSame() && old(handed) <= handed
      {
        var n := nested[i];
        var _ := Perform(n.call, n.inner);
      }
    }

    /** InitFailureDataAndCallClbk, reduced to whether the process goes on. */
    method CallClbk(what: FailureType, inner: Inner)
      requires busy && !holding
      requires Ready()
      modifies this, stackItems, stackItems.items, stackItems.nodes
      ensures Ready() && fresh(stackItems.nodes - old(stackItems.nodes))
      ensures busy && !holding && Tables() == old(Tables()).(process := process) && rawCalls == old(rawCalls)
      ensures process == if what in settings.continues then old(process) else Exited(what)
      ensures old(handed) <= handed
      decreases inner, 1
    {
      hide InOrder, SafeToTakeOut;
      PerformInner(inner, AfterLock);
      if what !in settings.continues {
        process := Exited(what);
      }
    }

    /** The decrement that sits inside an assertion, and the removal of a count that reaches 0. */
    method TakeOutOfStack(stack: Stack) returns (ok: bool)
      requires holding && Ready() && (repaired || SafeToTakeOut(stackItems, stack))
      modifies this`process, stackItems, stackItems.items, stackItems.nodes
      ensures Ready() && stackItems.nodes <= old(stackItems.nodes)
      ensures ok == (CountOf(old(Tables()).counts, stack) != 0)
      ensures Tables() == if ok then old(Tables()).(counts := Lowered(old(Tables()).counts, stack))
        else old(Tables()).(process := AssertFailed)
    {
      hide InOrder, SafeToTakeOut;
      ghost var removed;
      ok, removed := StackItems.TakeOutOfStack(stackItems, stack, repaired);
      if !ok {
        process := AssertFailed;
      }
    }

    method AddNewAllocatedMemoryAndCleanOldEntryNoLock(typ: MemoryType, at: Address, stack: Stack, inner: Inner)
        returns (answer: Answer)
      requires busy && holding
      requires Ready()
      modifies this, stackItems, stackItems.items, stackItems.nodes
      ensures Ready() && fresh(stackItems.nodes - old(stackItems.nodes))
      ensures busy && rawCalls == old(rawCalls)
      ensures Result(Tables(), answer) == Register(old(Tables()), typ, at, stack, settings)
      ensures answer.leak ==> !holding
      ensures old(handed) <= handed
      decreases inner, 2
    {
      hide InOrder, SafeToTakeOut;
      PerformInner(inner, UnderLock);
      var item := Item(typ, Allocated, at, stack, None);
      memoryItems := memoryItems[at := item];
      var leak := CountStack(stackItems, stack, settings.limit, repaired);
      if leak {
        Unlock();
        CallClbk(PossibilityOfMemoryLeak, inner);
      }
      return Pointer(at, leak);
    }

    method TestOperatorAlloc(count: nat, typ: MemoryType, stack: Stack, raw: Address, inner: Inner)
        returns (answer: Answer)
      requires !busy ==> !holding
      requires Ready()
      modifies this, stackItems, stackItems.items, stackItems.nodes
      ensures Ready() && fresh(stackItems.nodes - old(stackItems.nodes))
      ensures busy == old(busy) && holding == old(holding)
      ensures old(busy) ==> Tables() == old(Tables()) && rawCalls == old(rawCalls) && StackTableSame()
      ensures old(handed) <= handed
      ensures old(busy) ==> Handed(RawMalloc(count)) && answer == Passed(raw)
      ensures !old(busy) ==> Result(Tables(), answer) == Expected(old(Tables()), Alloc(count, typ, stack, raw))
      ensures !old(busy) ==> rawCalls == old(rawCalls) + if count == 0 then [] else [RawMalloc(count)]
      decreases inner, 3
    {
      hide InOrder, SafeToTakeOut;
      if busy {
        PerformInner(inner, BeforeLock);
        handed := handed + [RawMalloc(count)];
        return Passed(raw);
      }
      busy := true;
      if count == 0 {
        busy := false;
        return Refused;
      }
      rawCalls := rawCalls + [RawMalloc(count)];
      PerformInner(inner, BeforeLock);
      if raw == 0 {
        busy := false;
        return Refused;
      }
      Lock();
      answer := AddNewAllocatedMemoryAndCleanOldEntryNoLock(typ, raw, stack, inner);
      holding, busy := false, false;
    }

    method TestOperatorCalloc(nmemb: nat, size: nat, stack: Stack, raw: Address, inner: Inner) returns (answer: Answer)
      requires !busy ==> !holding
      requires Ready()
      modifies this, stackItems, stackItems.items, stackItems.nodes
      ensures Ready() && fresh(stackItems.nodes - old(stackItems.nodes))
      ensures busy == old(busy) && holding == old(holding)
      ensures old(busy) ==> Tables() == old(Tables()) && rawCalls == old(rawCalls) && StackTableSame()
      ensures old(handed) <= handed
      ensures old(busy) ==> Handed(RawCalloc(nmemb, size)) && answer == Passed(raw)
      ensures !old(busy) ==> Result(Tables(), answer) == Expected(old(Tables()), Calloc(nmemb, size, stack, raw))
      ensures !old(busy) ==>
        (rawCalls == old(rawCalls)
           + if nmemb * size % 0x1_0000_0000_0000_0000 == 0 then [] else [RawCalloc(nmemb, size)])
      decreases inner, 3
    {
      hide InOrder, SafeToTakeOut;
      if busy {
        PerformInner(inner, BeforeLock);
        handed := handed + [RawCalloc(nmemb, size)];
        return Passed(raw);
      }
      busy := true;
      if Wrap(nmemb * size) == 0 {
        busy := false;
        return Refused;
      }
      rawCalls := rawCalls + [RawCalloc(nmemb, size)];
      PerformInner(inner, BeforeLock);
      if raw == 0 {
        busy := false;
        return Refused;
      }
      Lock();
      answer := AddNewAllocatedMemoryAndCleanOldEntryNoLock(Malloc, raw, stack, inner);
      holding, busy := false, false;
    }

    method TestOperatorDelete(ptr: Address, expected: MemoryType, stack: Stack, inPool: bool, inner: Inner)
        returns (answer: Answer)
      requires !busy ==> RemovalSafe(ptr)
      requires !busy ==> !holding
      requires Ready()
      modifies this, stackItems, stackItems.items, stackItems.nodes
      ensures Ready() && fresh(stackItems.nodes - old(stackItems.nodes))
      ensures busy == old(busy) && holding == old(holding)
      ensures old(busy) ==> Tables() == old(Tables()) && rawCalls == old(rawCalls) && StackTableSame()
      ensures old(handed) <= handed
      ensures old(busy) && ptr != 0 ==> Handed(RawFree(ptr)) && answer == Passed(0)
      ensures !old(busy) ==> Result(Tables(), answer) == Expected(old(Tables()), Delete(ptr, expected, stack, inPool))
      ensures !old(busy) && answer.Freed? ==> rawCalls == old(rawCalls) + [RawFree(ptr)]
      ensures !old(busy) && answer.Passed? ==> rawCalls == old(rawCalls) + if inPool then [] else [LibcFree(ptr)]
      ensures !old(busy) && !answer.Freed? && !answer.Passed? ==> rawCalls == old(rawCalls)
      decreases inner, 5
    {
      hide InOrder, SafeToTakeOut, Lowered, CountOf, Raised;
      if ptr == 0 {
        return Ignored;
      }
      if busy {
        PerformInner(inner, BeforeLock);
        handed := handed + [RawFree(ptr)];
        return Passed(0);
      }
      answer := DeleteTracked(ptr, expected, stack, inPool, inner);
    }

    /** Lines 201-260. */
    method DeleteTracked(ptr: Address, expected: MemoryType, stack: Stack, inPool: bool, inner: Inner)
        returns (answer: Answer)
      requires RemovalSafe(ptr)
      requires !busy && !holding && ptr != 0
      requires Ready()
      modifies this, stackItems, stackItems.items, stackItems.nodes
      ensures Ready() && fresh(stackItems.nodes - old(stackItems.nodes))
      ensures !busy && !holding && old(handed) <= handed
      ensures Result(Tables(), answer) == Expected(old(Tables()), Delete(ptr, expected, stack, inPool))
      ensures answer.Freed? ==> rawCalls == old(rawCalls) + [RawFree(ptr)]
      ensures answer.Passed? ==> rawCalls == old(rawCalls) + if inPool then [] else [LibcFree(ptr)]
      ensures !answer.Freed? && !answer.Passed? ==> rawCalls == old(rawCalls)
      decreases inner, 4
    {
      hide InOrder, SafeToTakeOut, Lowered, CountOf, Raised;
      busy := true;
      PerformInner(inner, BeforeLock);
      Lock();
      if ptr !in memoryItems {
        Unlock();
        PerformInner(inner, AfterLock);
        if !inPool {
          rawCalls := rawCalls + [LibcFree(ptr)];
        }
        busy := false;
        return Passed(0);
      }
      answer := DeleteKnown(ptr, expected, stack, inPool, inner);
      holding, busy := false, false;
    }

    /** Lines 234-260, for an address that the table knows. */
    method DeleteKnown(ptr: Address, expected: MemoryType, stack: Stack, ghost inPool: bool, inner: Inner)
        returns (answer: Answer)
      requires RemovalSafe(ptr)
      requires busy && holding && ptr != 0 && ptr in memoryItems
      requires Ready()
      modifies this, stackItems, stackItems.items, stackItems.nodes
      ensures Ready() && fresh(stackItems.nodes - old(stackItems.nodes))
      ensures busy && old(handed) <= handed
      ensures Result(Tables(), answer) == Expected(old(Tables()), Delete(ptr, expected, stack, inPool))
      ensures !answer.Passed? && rawCalls == old(rawCalls) + if answer.Freed? then [RawFree(ptr)] else []
      decreases inner, 3
    {
      hide InOrder, SafeToTakeOut, Lowered, CountOf, Raised;
      var item := memoryItems[ptr];
      if item.status != Allocated {
        Unlock();
        CallClbk(DoubleFree, inner);
        return Report(DoubleFree, item);
      }
      answer := DeleteAllocated(ptr, expected, stack, inPool, inner);
    }

    /** Lines 242-260, for an entry that says Allocated. A failed assertion leaves the mutex taken. */
    method DeleteAllocated(ptr: Address, expected: MemoryType, stack: Stack, ghost inPool: bool, inner: Inner)
        returns (answer: Answer)
      requires RemovalSafe(ptr)
      requires busy && holding && ptr != 0 && IsLive(memoryItems, ptr)
      requires Ready()
      modifies this, stackItems, stackItems.items, stackItems.nodes
      ensures Ready() && fresh(stackItems.nodes - old(stackItems.nodes))
      ensures busy && (holding <==> answer == Abort)
      ensures Result(Tables(), answer) == Expected(old(Tables()), Delete(ptr, expected, stack, inPool))
      ensures !answer.Passed? && rawCalls == old(rawCalls) + if answer.Freed? then [RawFree(ptr)] else []
      ensures old(handed) <= handed
      decreases inner, 2
    {
      hide InOrder, SafeToTakeOut, Lowered, CountOf, Raised;
      var item := memoryItems[ptr];
      PerformInner(inner, UnderLock);
      var ok := TakeOutOfStack(item.allocTrace);
      if !ok {
        return Abort;
      }
      if item.typ != expected {
        Unlock();
        CallClbk(FreeMissmatch, inner);
        return Report(FreeMissmatch, item);
      }
      var toDelete := item.realAddress;
      memoryItems := memoryItems[ptr := item.(status := Deallocated, deallocTrace := Some(stack))];
      Unlock();
      Freen(toDelete, inner);
      return Freed;
    }

    method TestOperatorReAlloc(ptr: Address, count: nat, stack: Stack, raw: Address, inPool: bool, inner: Inner)
        returns (answer: Answer)
      requires !busy ==> RemovalSafe(ptr)
      requires !busy ==> !holding
      requires Ready()
      modifies this, stackItems, stackItems.items, stackItems.nodes
      ensures Ready() && fresh(stackItems.nodes - old(stackItems.nodes))
      ensures busy == old(busy) && holding == old(holding)
      ensures old(busy) ==> Tables() == old(Tables()) && rawCalls == old(rawCalls) && StackTableSame()
      ensures old(handed) <= handed
      ensures old(busy) ==> Handed(RawRealloc(ptr, count)) && answer == Passed(raw)
      ensures !old(busy) ==>
          Result(Tables(), answer) == Expected(old(Tables()), Realloc(ptr, count, stack, raw, inPool))
      ensures !old(busy) && ptr != 0 && count != 0 ==>
          (if IsLive(old(memoryItems), ptr) && old(memoryItems)[ptr].typ == Malloc then
             rawCalls == old(rawCalls) + [RawRealloc(ptr, count)]
           else if ptr !in old(memoryItems) && !inPool then rawCalls == old(rawCalls) + [LibcRealloc(ptr, count)]
           else rawCalls == old(rawCalls))
      ensures !old(busy) && ptr != 0 && count == 0 ==> rawCalls == old(rawCalls) + DeleteCalls(ptr, inPool, answer)
      ensures !old(busy) && ptr == 0 ==> rawCalls == old(rawCalls) + if count == 0 then [] else [RawMalloc(count)]
      decreases inner, 6
    {
      hide InOrder, SafeToTakeOut, Lowered, CountOf, Raised;
      if busy {
        PerformInner(inner, BeforeLock);
        handed := handed + [RawRealloc(ptr, count)];
        return Passed(raw);
      }
      if ptr == 0 {
        answer := TestOperatorAlloc(count, Malloc, stack, raw, inner);
        return;
      }
      if count == 0 {
        answer := TestOperatorDelete(ptr, Malloc, stack, inPool, inner);
        return;
      }
      answer := ReallocNonEmpty(ptr, count, stack, raw, inPool, inner);
    }

    /** Lines 308-364, for a non-null pointer and a positive size. */
    method ReallocNonEmpty(ptr: Address, count: nat, stack: Stack, raw: Address, inPool: bool, inner: Inner)
        returns (answer: Answer)
      requires RemovalSafe(ptr)
      requires !busy && !holding && ptr != 0 && count != 0
      requires Ready()
      modifies this, stackItems, stackItems.items, stackItems.nodes
      ensures Ready() && fresh(stackItems.nodes - old(stackItems.nodes))
      ensures !busy && !holding
      ensures Result(Tables(), answer) == Expected(old(Tables()), Realloc(ptr, count, stack, raw, inPool))
      ensures rawCalls == old(rawCalls) + ReallocCalls(old(memoryItems), ptr, count, inPool)
      ensures old(handed) <= handed
      decreases inner, 5
    {
      hide InOrder, SafeToTakeOut, Lowered, CountOf, Raised;
      busy := true;
      PerformInner(inner, BeforeLock);
      Lock();
      if ptr !in memoryItems {
        Unlock();
        PerformInner(inner, AfterLock);
        if !inPool {
          rawCalls := rawCalls + [LibcRealloc(ptr, count)];
        }
        busy := false;
        return Passed(raw);
      }
      answer := ReallocKnown(ptr, count, stack, raw, inPool, inner);
      holding, busy := false, false;
    }

    /** Lines 338-364, for an address that the table knows. */
    method ReallocKnown(ptr: Address, count: nat, stack: Stack, raw: Address, ghost inPool: bool, inner: Inner)
        returns (answer: Answer)
      requires RemovalSafe(ptr)
      requires busy && holding && ptr != 0 && count != 0 && ptr in memoryItems
      requires Ready()
      modifies this, stackItems, stackItems.items, stackItems.nodes
      ensures Ready() && fresh(stackItems.nodes - old(stackItems.nodes))
      ensures busy && old(handed) <= handed
      ensures Result(Tables(), answer) == Expected(old(Tables()), Realloc(ptr, count, stack, raw, inPool))
      ensures rawCalls == old(rawCalls) + ReallocCalls(old(memoryItems), ptr, count, inPool)
      decreases inner, 4
    {
      hide InOrder, SafeToTakeOut, Lowered, CountOf, Raised;
      var item := memoryItems[ptr];
      if item.typ != Malloc {
        Unlock();
        CallClbk(BadReallocCreatedByWrongAlloc, inner);
        return Report(BadReallocCreatedByWrongAlloc, item);
      }
      if item.status != Allocated {
        Unlock();
        CallClbk(BadReallocDeletedMem, inner);
        return Report(BadReallocDeletedMem, item);
      }
      Reallocn(item.realAddress, count, inner);
      if raw != ptr {
        answer := RegisterMoved(ptr, raw, stack, inner);
        return;
      }
      Unlock();
      return Pointer(ptr, false);
    }

    /** Lines 353-359: the block of an allocated entry has moved. */
    method RegisterMoved(ptr: Address, raw: Address, stack: Stack, inner: Inner) returns (answer: Answer)
      requires RemovalSafe(ptr)
      requires busy && holding && IsLive(memoryItems, ptr)
      requires Ready()
      modifies this, stackItems, stackItems.items, stackItems.nodes
      ensures Ready() && fresh(stackItems.nodes - old(stackItems.nodes))
      ensures busy && rawCalls == old(rawCalls)
      ensures
        var s := old(Tables());
        var counted := CountOf(s.counts, s.items[ptr].allocTrace) != 0;
        && (!counted ==> answer == Abort && Tables() == s.(process := AssertFailed))
        && (counted ==> var r := Register(MovedOff(s, ptr, raw), Malloc, raw, stack, settings);
                        answer == r.answer && Tables() == r.state.(owned := {}))
      ensures old(handed) <= handed
      decreases inner, 3
    {
      hide InOrder, SafeToTakeOut, Lowered, CountOf, Register;
      var item := memoryItems[ptr];
      var ok := TakeOutOfStack(item.allocTrace);
      if !ok {
        return Abort;
      }
      memoryItems := memoryItems[ptr := item.(status := Deallocated)];
      ghost var s := Tables();
      answer := AddNewAllocatedMemoryAndCleanOldEntryNoLock(Malloc, raw, stack, inner);
      RegisterIgnoresOwned(s, MovedOff(old(Tables()), ptr, raw), Malloc, raw, stack, settings);
    }

    /** The test that RemovalSafe describes, which a caller can make before the call. */
    method TestRemoval(target: Address) returns (safe: bool)
      requires Ready()
      ensures safe == RemovalSafe(target)
    {
      hide SafeToTakeOut, HashItems.HashItemsByPtr.AsWritten, HashItems.HashItemsByPtr.Valid;
      if repaired || target !in memoryItems || memoryItems[target].status != Allocated {
        return true;
      }
      safe := TestSafeToTakeOut(stackItems, memoryItems[target].allocTrace);
    }

    /** A whole run: the calls are made one after the other until the process ends or, with line 84 as
        written, a removal would not be safe. Up to there tables and answers are those of the sequential
        specification; so a run whose removals are all safe is the specified one. */
    method PerformWhileSafe(calls: seq<Call>) returns (answers: seq<Answer>, made: nat)
      requires Ready() && !busy && !holding && Tables() == START
      modifies this, stackItems, stackItems.items, stackItems.nodes
      ensures Ready() && !busy && !holding && made <= |calls|
      ensures Tables() == Run(calls[..made], settings).state.(owned := {})
      ensures answers == AnswersOf(calls[..made], settings)
      ensures forall a :: multiset(rawCalls)[RawFree(a)] ==
                          multiset(old(rawCalls))[RawFree(a)] + FreesIn(Run(calls[..made], settings).history, a)
      ensures made < |calls| && process == Running ==> !RemovalSafe(Target(calls[made]))
    {
      hide InOrder, SafeToTakeOut, After, RemovalSafe, Run, AnswersOf, FreesIn, RawCalls, Events;
      answers, made := [], 0;
      NoCalls(settings);
      while made < |calls| && process == Running
        invariant Ready() && !busy && !holding && made <= |calls|
        invariant fresh(stackItems.nodes - old(stackItems.nodes))
        invariant Tables() == Run(calls[..made], settings).state.(owned := {})
        invariant answers == AnswersOf(calls[..made], settings)
        invariant forall a :: multiset(rawCalls)[RawFree(a)] ==
                              multiset(old(rawCalls))[RawFree(a)] + FreesIn(Run(calls[..made], settings).history, a)
        decreases |calls| - made
      {
        var call := calls[made];
        var safe := TestRemoval(Target(call));
        if !safe {
          return;
        }
        ghost var items := memoryItems;
        var answer := Perform(call, Inner([], [], []));
        OneMoreCall(calls[..made], call, settings);
        FreesOfCall(Run(calls[..made], settings).state, call, settings, Run(calls[..made], settings).history);
        assert calls[..made + 1] == calls[..made] + [call];
        answers, made := answers + [answer], made + 1;
      }
    }

    /** Only a delete, or a realloc to nothing, frees. */
    lemma WhoFrees(s: State, call: Call, settings: Settings)
      ensures After(s, call, settings).answer.Freed? ==>
          Target(call) != 0 && (call.Delete? || (call.Realloc? && call.count == 0))
      ensures call.Delete? || (call.Realloc? && call.count == 0 && call.ptr != 0) ==>
          !After(s, call, settings).answer.Pointer?
    {
    }

    lemma OneFree(a: Address, c: RawCall)
      ensures multiset([c])[RawFree(a)] == if c == RawFree(a) then 1 else 0
    {
    }

    /** A call's raw frees of an address are its releases by delete. */
    lemma FreesOfCall(s: State, call: Call, settings: Settings, h: seq<Event>)
      ensures
        var answer := After(s, call, settings).answer;
        forall a :: FreesIn(h + Events(call, answer), a)
                 == FreesIn(h, a) + multiset(RawCalls(s.items, call, answer))[RawFree(a)]
    {
      WhoFrees(s, call, settings);
      FreesOfAnswer(s.items, call, After(s, call, settings).answer, h);
    }

    lemma OneEvent(e: Event, a: Address)
      ensures FreesIn([e], a) == if e.at == a && e.Released? && e.trace.Some? then 1 else 0
    {
      assert [e][..0] == [];
      assert FreesIn([], a) == 0;
    }

    lemma EventFrees(call: Call, answer: Answer, a: Address)
      ensures FreesIn(Events(call, answer), a) == if answer.Freed? && Target(call) == a then 1 else 0
    {
      var events := Events(call, answer);
      if |events| > 0 {
        OneEvent(events[0], a);
        if |events| == 1 {
          assert events == [events[0]];
        } else {
          OneEvent(events[1], a);
          FreesAdded([events[0]], [events[1]], a);
          assert events == [events[0]] + [events[1]];
        }
      }
    }

    lemma CallFrees(items: Items, call: Call, answer: Answer, a: Address)
      requires answer.Freed? ==> Target(call) != 0 && (call.Delete? || (call.Realloc? && call.count == 0))
      ensures multiset(RawCalls(items, call, answer))[RawFree(a)] == if answer.Freed? && Target(call) == a then 1 else 0
    {
      var raw := RawCalls(items, call, answer);
      if raw != [] {
        assert raw == [raw[0]];
        OneFree(a, raw[0]);
      }
    }

    lemma FreesOfAnswer(items: Items, call: Call, answer: Answer, h: seq<Event>)
      requires answer.Freed? ==> Target(call) != 0 && (call.Delete? || (call.Realloc? && call.count == 0))
      ensures forall a :: FreesIn(h + Events(call, answer), a)
                       == FreesIn(h, a) + multiset(RawCalls(items, call, answer))[RawFree(a)]
    {
      hide FreesIn, Events, RawCalls;
      forall a
        ensures FreesIn(h + Events(call, answer), a)
             == FreesIn(h, a) + multiset(RawCalls(items, call, answer))[RawFree(a)]
      {
        FreesAdded(h, Events(call, answer), a);
        EventFrees(call, answer, a);
        CallFrees(items, call, answer, a);
      }
    }

    lemma NoCalls(settings: Settings)
      ensures Run([], settings) == System(START, []) && AnswersOf([], settings) == []
      ensures forall a :: FreesIn([], a) == 0
    {
    }

    /** The specified run grows by one call, whatever the raw allocator holds. */
    lemma OneMoreCall(calls: seq<Call>, call: Call, settings: Settings)
      requires Run(calls, settings).state.process == Running
      ensures
        var s := Run(calls, settings).state;
        var r := After(s.(owned := {}), call, settings);
        && Run(calls + [call], settings).state.(owned := {}) == r.state.(owned := {})
        && AnswersOf(calls + [call], settings) == AnswersOf(calls, settings) + [r.answer]
        && r.answer == After(s, call, settings).answer
        && Run(calls + [call], settings).history == Run(calls, settings).history + Events(call, r.answer)
    {
      hide After;
      assert (calls + [call])[..|calls|] == calls;
      OwnedDoesNotMatter(Run(calls, settings).state, {}, call, settings);
    }
  }
}
