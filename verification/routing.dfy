/** Where a block goes while the library finds the original functions: the bootstrap pool, the libc
    functions, or the tracker. One thread; the calls that a call provokes form a tree. */
module Routing {
  import opened Words
  import PoolSpec

  type Address = nat

  /** CRASH_INVEST_MEMORY_HANDLER_SIZE2. */
  const POOL_SIZE: nat := 1048576

  predicate InPool(base: Address, at: Address) {
    base <= at < base + POOL_SIZE
  }

  /** The pool's own test, with the wrapping subtraction of size_t, accepts exactly the addresses inside
      its buffer. */
  lemma OffsetGuardExact(base: Address, at: Address)
    requires base + POOL_SIZE <= WORD_LIMIT && at < WORD_LIMIT
    ensures Wrap(at - base) < POOL_SIZE <==> InPool(base, at)
  {
  }

  /** A call of malloc (or calloc), free or realloc. `raw` is what libc answers if the call gets there. */
  datatype Op =
    | Malloc(count: nat, raw: Address, more: Provoked)
    | Free(ptr: Address, raw: Address, more: Provoked)
    | Realloc(ptr: Address, count: nat, raw: Address, more: Provoked)

  /** The calls that dlsym makes if this call is the first to need the original functions, and those that
      the call provokes otherwise (stack capture, reports). */
  datatype Provoked = Provoked(init: seq<Op>, inner: seq<Op>)

  /** libc never hands out addresses inside the pool's static buffer. */
  ghost predicate Honest(base: Address, op: Op)
    decreases op
  {
    !InPool(base, op.raw) && AllHonest(base, op.more)
  }

  ghost predicate AllHonest(base: Address, more: Provoked)
    decreases more
  {
    && (forall o :: o in more.init ==> Honest(base, o))
    && (forall o :: o in more.inner ==> Honest(base, o))
  }

  /** What happened at the two allocators. `tracking` is the reentrancy flag at that moment; `nested` says
      that the call which presented the address had found it set. */
  datatype Event =
    | PoolGave(at: Address, tracking: bool)
    | PoolTook(at: Address)
    | LibcGave(at: Address)
    | LibcTook(at: Address, nested: bool, found: bool)   // found: the original function was already known

  ghost predicate Good(base: Address, e: Event) {
    match e
    case PoolGave(at, tracking) => InPool(base, at) && tracking
    case PoolTook(at) => InPool(base, at)
    case LibcGave(at) => !InPool(base, at)
    case LibcTook(at, nested, found) => found && (InPool(base, at) ==> nested)
  }

  class Process {
    const base: Address
    var blocks: PoolSpec.Blocks
    /** s_isInitFunction, s_isNotInited, and the state of pthread_once. */
    var isInitFunction: bool
    var isNotInited: bool
    var onceRunning: bool
    /** s_bIsAllocingOrDeallocing. */
    var busy: bool
    /** The tracker's table: for each key whether it is Allocated. */
    var table: map<Address, bool>
    ghost var log: seq<Event>

    ghost predicate Valid()
      reads this
    {
      && base > 0
      && PoolSpec.WellSized(blocks, POOL_SIZE)
      && (isInitFunction ==> busy && isNotInited)
      && isInitFunction == onceRunning
      && (forall a :: a in table ==> !InPool(base, a))
      && (forall e :: e in log ==> Good(base, e))
    }

    /** What every call leaves as it found it. */
    twostate predicate Settled()
      reads this
    {
      && busy == old(busy) && isInitFunction == old(isInitFunction)
      && (!old(isNotInited) ==> !isNotInited)
      && old(log) <= log
      && (old(busy) ==> table == old(table))
    }

    /** What the log gained, and that libc took in it only what nested calls presented. */
    twostate predicate OnlyNested()
      reads this
    {
      old(log) <= log && forall k :: |old(log)| <= k < |log| && log[k].LibcTook? ==> log[k].nested
    }

    /** The outcome of an allocation that finds the flag clear: nothing, or libc's block, which becomes a key. */
    twostate predicate Allocated(count: nat, raw: Address, result: Address)
      reads this
    {
      && result == (if count == 0 then 0 else raw)
      && table == (if result == 0 then old(table) else old(table)[result := true])
      && OnlyNested()
      && (count != 0 ==> LibcGave(raw) in log[|old(log)|..])
    }

    /** Libc took the address at the end, presented by a tracked call, and no other that a tracked call
        presented. */
    twostate predicate LibcTookIt(ptr: Address, rest: seq<Event>)
      reads this
    {
      var n := |log| - 1 - |rest|;
      && |old(log)| <= n && old(log) <= log && log[n..] == [LibcTook(ptr, false, true)] + rest
      && forall k :: |old(log)| <= k < n && log[k].LibcTook? ==> log[k].nested
    }

    /** The outcome of a delete that finds the flag clear, for an address outside the pool. */
    twostate predicate Deleted(ptr: Address)
      reads this
    {
      if ptr in old(table) && !old(table)[ptr] then OnlyNested() && table == old(table)
      else
        && LibcTookIt(ptr, [])
        && table == (if ptr in old(table) then old(table)[ptr := false] else old(table))
    }

    /** The outcome of a realloc of something to a positive size, likewise. */
    twostate predicate Reallocated(ptr: Address, raw: Address, result: Address)
      reads this
    {
      if ptr in old(table) && !old(table)[ptr] then OnlyNested() && result == 0 && table == old(table)
      else
        && result == raw && LibcTookIt(ptr, [LibcGave(raw)])
        && table == (if ptr in old(table) && raw != ptr then old(table)[ptr := false][raw := true] else old(table))
    }

    constructor (base: Address)
      requires base > 0
      ensures Valid() && this.base == base && !busy && isNotInited && !isInitFunction && log == [] && table == map[]
        && blocks == []
    {
      this.base := base;
      blocks, table, log := [], map[], [];
      isInitFunction, isNotInited, onceRunning, busy := false, true, false, false;
    }

    // ---- the pool --------------------------------------------------------------------------------

    method PoolAlloc(count: nat) returns (at: Address)
      requires Valid() && busy
      modifies this`blocks, this`log
      ensures Valid()
      ensures at == 0 || InPool(base, at)
      ensures at != 0 <==> PoolSpec.Fits(old(blocks), count, POOL_SIZE)
      ensures blocks == PoolSpec.AfterAlloc(old(blocks), count, POOL_SIZE)
      ensures log == old(log) + if at == 0 then [] else [PoolGave(at, true)]
    {
      PoolSpec.AllocKeepsTiling(blocks, count, POOL_SIZE);
      if PoolSpec.Fits(blocks, count, POOL_SIZE) {
        at := base + PoolSpec.EndOf(blocks) + PoolSpec.HEADER;
        log := log + [PoolGave(at, busy)];
      } else {
        at := 0;
      }
      blocks := PoolSpec.AfterAlloc(blocks, count, POOL_SIZE);
    }

    method FindBlock(at: Address) returns (i: nat)
      requires Valid()
      ensures i <= |blocks| && (i < |blocks| ==> base + blocks[i].Payload() == at)
      ensures forall j :: 0 <= j < |blocks| && base + blocks[j].Payload() == at ==> j == i
    {
      i := 0;
      while i < |blocks| && base + blocks[i].Payload() != at
        invariant i <= |blocks|
        invariant forall j :: 0 <= j < i ==> base + blocks[j].Payload() != at
      {
        i := i + 1;
      }
      forall j | 0 <= j < |blocks| && base + blocks[j].Payload() == at
        ensures j == i
      {
        if j != i { PoolSpec.LivePayloadsDisjoint(blocks, i, j); }
      }
    }

    method PoolDealloc(at: Address) returns (accepted: bool)
      requires Valid()
      modifies this`blocks, this`log
      ensures Valid() && accepted == InPool(base, at)
      ensures log == old(log) + if accepted then [PoolTook(at)] else []
      ensures forall i :: 0 <= i < |old(blocks)| && base + old(blocks)[i].Payload() == at && accepted ==>
          blocks == PoolSpec.AfterFree(old(blocks), i)
      ensures !accepted ==> blocks == old(blocks)
    {
      if !InPool(base, at) {
        return false;
      }
      var i := FindBlock(at);
      if i < |blocks| {
        PoolSpec.FreeKeepsTiling(blocks, i, POOL_SIZE);
        blocks := PoolSpec.AfterFree(blocks, i);
      }
      log := log + [PoolTook(at)];
      return true;
    }

    method PoolRealloc(at: Address, count: nat) returns (accepted: bool, result: Address)
      requires Valid() && busy
      modifies this`blocks, this`log
      ensures Valid() && accepted == (at == 0 || InPool(base, at))
      ensures result == 0 || InPool(base, result)
      ensures old(log) <= log
      ensures at == 0 ==> blocks == PoolSpec.AfterAlloc(old(blocks), count, POOL_SIZE)
      ensures at == 0 ==> (result != 0 <==> PoolSpec.Fits(old(blocks), count, POOL_SIZE))
      ensures forall i :: 0 <= i < |old(blocks)| && base + old(blocks)[i].Payload() == at && at != 0 && accepted ==>
          var offset := PoolSpec.ReallocResult(old(blocks), i, count, POOL_SIZE);
          && blocks == PoolSpec.AfterRealloc(old(blocks), i, count, POOL_SIZE)
          && result == if offset < 0 then 0 else base + offset
      ensures !accepted ==> blocks == old(blocks) && log == old(log) && result == 0
      ensures at != 0 && accepted ==> |log| > |old(log)| && log[|old(log)|] == PoolTook(at)
      ensures forall k :: |old(log)| <= k < |log| ==> log[k].PoolTook? || log[k].PoolGave?
    {
      if at == 0 {
        result := PoolAlloc(count);
        return true, result;
      }
      if !InPool(base, at) {
        return false, 0;
      }
      var i := FindBlock(at);
      log := log + [PoolTook(at)];
      result := 0;
      if i < |blocks| {
        PoolSpec.ReallocKeepsTiling(blocks, i, count, POOL_SIZE);
        var offset := PoolSpec.ReallocResult(blocks, i, count, POOL_SIZE);
        blocks := PoolSpec.AfterRealloc(blocks, i, count, POOL_SIZE);
        if offset > 0 {
          result := base + offset;
          log := log + [PoolGave(result, busy)];
        }
      }
      return true, result;
    }

    // ---- finding the original functions ------------------------------------------------------------

    method PerformAll(ops: seq<Op>)
      requires Valid() && busy && forall o :: o in ops ==> Honest(base, o)
      modifies this
      ensures Valid() && Settled() && OnlyNested()
      decreases ops, 0
    {
      for i := 0 to |ops|
        invariant Valid() && Settled() && OnlyNested()
      {
        var _ := Perform(ops[i]);
      }
    }

    /** InitFunction: the four dlsym calls, with everything they call. It runs inside pthread_once, which
        must not be entered again meanwhile. */
    method InitFunction(ops: seq<Op>)
      requires Valid() && busy && isNotInited && !onceRunning && forall o :: o in ops ==> Honest(base, o)
      modifies this
      ensures Valid() && !isInitFunction && !isNotInited && busy && OnlyNested() && table == old(table)
      decreases ops, 1
    {
      onceRunning := true;
      isInitFunction := true;
      PerformAll(ops);
      isInitFunction := false;
      isNotInited := false;
      onceRunning := false;
    }

    // ---- mallocn, reallocn, freen ------------------------------------------------------------------

    /** mallocn and callocn. */
    method Mallocn(count: nat, raw: Address, init: seq<Op>) returns (at: Address)
      requires Valid() && busy && !InPool(base, raw) && forall o :: o in init ==> Honest(base, o)
      modifies this
      ensures Valid() && Settled() && OnlyNested()
      ensures old(isInitFunction) ==> at == 0 || InPool(base, at)
      ensures old(isInitFunction) ==> log == old(log) + if at == 0 then [] else [PoolGave(at, true)]
      ensures old(isInitFunction) ==> (at != 0 <==> PoolSpec.Fits(old(blocks), count, POOL_SIZE))
      ensures !old(isInitFunction) ==>
          at == raw && !isNotInited && |log| > |old(log)| && log[|log| - 1] == LibcGave(raw)
      decreases init, 2
    {
      if isInitFunction {
        at := PoolAlloc(count);
        return;
      }
      if isNotInited {
        InitFunction(init);
      }
      log := log + [LibcGave(raw)];
      return raw;
    }

    /** freen: `nested` says that the call which presented the address had found the flag set. */
    method Freen(ptr: Address, nested: bool, init: seq<Op>)
      requires Valid() && busy && (InPool(base, ptr) ==> nested) && forall o :: o in init ==> Honest(base, o)
      modifies this
      ensures Valid() && Settled() && (nested ==> OnlyNested())
      ensures !old(isInitFunction) && !nested ==> LibcTookIt(ptr, [])
      ensures old(isInitFunction) ==> log == old(log) + if InPool(base, ptr) then [PoolTook(ptr)] else []
      ensures !old(isInitFunction) ==> |log| > |old(log)| && log[|log| - 1] == LibcTook(ptr, nested, true)
      decreases init, 2
    {
      if isInitFunction {
        var _ := PoolDealloc(ptr);
        return;
      }
      if isNotInited {
        InitFunction(init);
      }
      log := log + [LibcTook(ptr, nested, !isNotInited)];
    }

    method Reallocn(ptr: Address, count: nat, raw: Address, nested: bool, init: seq<Op>) returns (result: Address)
      requires Valid() && busy && (InPool(base, ptr) ==> nested) && !InPool(base, raw)
      requires forall o :: o in init ==> Honest(base, o)
      modifies this
      ensures Valid() && Settled() && (nested ==> OnlyNested())
      ensures !old(isInitFunction) && !nested ==> LibcTookIt(ptr, [LibcGave(raw)])
      ensures old(isInitFunction) ==> result == 0 || InPool(base, result)
      ensures !old(isInitFunction) ==>
        result == raw && |log| > |old(log)| + 1 && log[|log| - 2..] == [LibcTook(ptr, nested, true), LibcGave(raw)]
      decreases init, 2
    {
      if isInitFunction {
        var accepted;
        accepted, result := PoolRealloc(ptr, count);
        return;
      }
      if isNotInited {
        InitFunction(init);
      }
      log := log + [LibcTook(ptr, nested, !isNotInited), LibcGave(raw)];
      return raw;
    }

    // ---- the tracked calls ---------------------------------------------------------------------------

    /** TestOperatorAlloc and TestOperatorCalloc. A block handed out with the flag clear comes from libc. */
    method TestOperatorAlloc(count: nat, raw: Address, more: Provoked) returns (result: Address)
      requires Valid() && !InPool(base, raw) && AllHonest(base, more)
      modifies this
      ensures Valid() && Settled() && OnlyNested()
      ensures !old(busy) ==> Allocated(count, raw, result) && !InPool(base, result)
      ensures old(busy) && !old(isInitFunction) ==>
        (result == raw && |log| > |old(log)| && log[|log| - 1] == LibcGave(raw))
      ensures old(isInitFunction) ==> result == 0 || InPool(base, result)
      decreases more, 3
    {
      if busy {
        PerformAll(more.inner);
        result := Mallocn(count, raw, more.init);
        return;
      }
      busy := true;
      if count == 0 {
        busy := false;
        return 0;
      }
      result := Mallocn(count, raw, more.init);
      PerformAll(more.inner);
      if result != 0 {
        table := table[result := true];
      }
      busy := false;
    }

    /** TestOperatorDelete. A pool block presented with the flag clear goes to the pool, whatever else has
        happened; presented with the flag set, it goes to the pool during InitFunction and to libc
        afterwards. */
    method TestOperatorDelete(ptr: Address, raw: Address, more: Provoked)
      requires Valid() && !InPool(base, raw) && AllHonest(base, more)
      modifies this
      ensures Valid() && Settled() && (old(busy) ==> OnlyNested())
      ensures ptr == 0 ==> log == old(log) && table == old(table) && blocks == old(blocks)
      ensures ptr != 0 && !old(busy) && !InPool(base, ptr) ==> Deleted(ptr)
      ensures ptr != 0 && old(busy) && !old(isInitFunction) ==>
          |log| > |old(log)| && log[|log| - 1] == LibcTook(ptr, true, true)
      ensures InPool(base, ptr) ==>
        (|log| > |old(log)| &&
         log[|log| - 1] == if old(busy) && !old(isInitFunction) then LibcTook(ptr, true, true) else PoolTook(ptr))
      decreases more, 3
    {
      if ptr == 0 {
        return;
      }
      if busy {
        PerformAll(more.inner);
        Freen(ptr, true, more.init);
        return;
      }
      busy := true;
      var _ := Mallocn(24, raw, more.init);
      PerformAll(more.inner);
      if ptr in table {
        DeleteKnown(ptr, more.init);
      } else {
        DeleteUnknown(ptr);
      }
      busy := false;
    }

    method DeleteKnown(ptr: Address, init: seq<Op>)
      requires Valid() && busy && !isInitFunction && ptr in table
      requires forall o :: o in init ==> Honest(base, o)
      modifies this
      ensures Valid() && busy && !isInitFunction && (!old(isNotInited) ==> !isNotInited)
      ensures Deleted(ptr)
      decreases init, 3
    {
      if table[ptr] {
        table := table[ptr := false];
        Freen(ptr, false, init);
      }
    }

    method DeleteUnknown(ptr: Address)
      requires Valid() && busy && !isInitFunction && !isNotInited && ptr !in table
      modifies this`blocks, this`log
      ensures Valid()
      ensures InPool(base, ptr) ==> log == old(log) + [PoolTook(ptr)]
      ensures !InPool(base, ptr) ==> Deleted(ptr)
    {
      var accepted := PoolDealloc(ptr);
      if !accepted {
        log := log + [LibcTook(ptr, false, !isNotInited)];
      }
    }

    /** TestOperatorReAlloc. A pool block presented with the flag clear stays with the pool; presented with
        the flag set after InitFunction, it goes to libc. */
    method TestOperatorReAlloc(ptr: Address, count: nat, raw: Address, more: Provoked) returns (result: Address)
      requires Valid() && !InPool(base, raw) && AllHonest(base, more)
      modifies this
      ensures Valid() && Settled() && (old(busy) ==> OnlyNested())
      ensures !old(busy) && ptr == 0 ==> Allocated(count, raw, result)
      ensures !old(busy) && ptr != 0 && count == 0 && !InPool(base, ptr) ==> result == 0 && Deleted(ptr)
      ensures !old(busy) && ptr != 0 && count != 0 && !InPool(base, ptr) ==> Reallocated(ptr, raw, result)
      ensures InPool(base, ptr) && !old(busy) ==> result == 0 || InPool(base, result)
      ensures old(busy) && !old(isInitFunction) ==>
        (result == raw && |log| > |old(log)| + 1 && log[|log| - 2..] == [LibcTook(ptr, true, true), LibcGave(raw)])
      decreases more, 4
    {
      if busy {
        PerformAll(more.inner);
        result := Reallocn(ptr, count, raw, true, more.init);
        return;
      }
      if ptr == 0 {
        result := TestOperatorAlloc(count, raw, more);
        return;
      }
      if count == 0 {
        TestOperatorDelete(ptr, raw, more);
        return 0;
      }
      busy := true;
      var _ := Mallocn(24, raw, more.init);
      PerformAll(more.inner);
      if ptr in table {
        result := ReallocKnown(ptr, count, raw, more.init);
      } else {
        result := ReallocUnknown(ptr, count, raw);
      }
      busy := false;
    }

    method ReallocKnown(ptr: Address, count: nat, raw: Address, init: seq<Op>) returns (result: Address)
      requires Valid() && busy && !isInitFunction && ptr in table && !InPool(base, raw)
      requires forall o :: o in init ==> Honest(base, o)
      modifies this
      ensures Valid() && busy && !isInitFunction && (!old(isNotInited) ==> !isNotInited)
      ensures Reallocated(ptr, raw, result)
      decreases init, 3
    {
      result := 0;
      if table[ptr] {
        result := Reallocn(ptr, count, raw, false, init);
        if result != ptr {
          table := table[ptr := false];
          table := table[result := true];
        }
      }
    }

    method ReallocUnknown(ptr: Address, count: nat, raw: Address) returns (result: Address)
      requires Valid() && busy && !isInitFunction && !isNotInited && ptr !in table && ptr != 0 && !InPool(base, raw)
      modifies this`blocks, this`log
      ensures Valid()
      ensures !InPool(base, ptr) ==> Reallocated(ptr, raw, result)
      ensures InPool(base, ptr) ==> (result == 0 || InPool(base, result)) && OnlyNested()
    {
      var accepted;
      accepted, result := PoolRealloc(ptr, count);
      if !accepted {
        log := log + [LibcTook(ptr, false, !isNotInited), LibcGave(raw)];
        result := raw;
      }
    }

    /** Any call, with everything that it provokes. */
    method Perform(op: Op) returns (result: Address)
      requires Valid() && Honest(base, op)
      modifies this
      ensures Valid() && Settled() && (old(busy) ==> OnlyNested())
      ensures op.Malloc? && !old(busy) ==> Allocated(op.count, op.raw, result)
      ensures op.Free? && op.ptr != 0 && !old(busy) && !InPool(base, op.ptr) ==> Deleted(op.ptr)
      ensures op.Realloc? && op.ptr != 0 && op.count != 0 && !old(busy) && !InPool(base, op.ptr) ==>
        Reallocated(op.ptr, op.raw, result)
      ensures op.Malloc? && old(busy) && !old(isInitFunction) ==>
        (result == op.raw && |log| > |old(log)| && log[|log| - 1] == LibcGave(op.raw))
      ensures op.Free? && op.ptr != 0 && old(busy) && !old(isInitFunction) ==>
        (|log| > |old(log)| && log[|log| - 1] == LibcTook(op.ptr, true, true))
      ensures op.Free? && InPool(base, op.ptr) && (!old(busy) || old(isInitFunction)) ==>
        (|log| > |old(log)| && log[|log| - 1] == PoolTook(op.ptr))
      decreases op, 0
    {
      match op
      case Malloc(count, raw, more) =>
        result := TestOperatorAlloc(count, raw, more);
      case Free(ptr, raw, more) =>
        TestOperatorDelete(ptr, raw, more);
        result := 0;
      case Realloc(ptr, count, raw, more) =>
        result := TestOperatorReAlloc(ptr, count, raw, more);
    }

    // ---- s_isInitFunction and other threads ------------------------------------------------------------

    /** TestOperatorAlloc in another thread, whose own reentrancy flag is clear, while some thread is inside
        InitFunction or after that is over. s_isInitFunction is shared between threads: the block comes from
        the pool, and becomes a table key, if and only if a thread is inside InitFunction at that time, the
        size is not 0 and the pool has room. */
    method AllocInOtherThread(count: nat, raw: Address) returns (result: Address)
      requires Valid() && !InPool(base, raw) && (isInitFunction || !isNotInited)
      modifies this
      ensures table == if result == 0 then old(table) else old(table)[result := true]
      ensures count != 0 && !old(isInitFunction) ==> result == raw && log == old(log) + [LibcGave(raw)]
      ensures count == 0 || (old(isInitFunction) && !PoolSpec.Fits(old(blocks), count, POOL_SIZE)) ==>
          result == 0 && log == old(log)
      ensures (exists key :: key in table && InPool(base, key)) <==>
          count != 0 && old(isInitFunction) && PoolSpec.Fits(old(blocks), count, POOL_SIZE)
    {
      result := 0;
      if count == 0 {
        return;
      }
      if isInitFunction {
        result := PoolAlloc(count);
      } else {
        log := log + [LibcGave(raw)];
        result := raw;
      }
      if result != 0 {
        table := table[result := true];
      }
    }
  }

  /** A run in which libc is handed a pool block: dlsym allocates it inside InitFunction, and once that is
      over it is freed by a call that is nested in a tracked one. */
  method PoolBlockGoesToLibc(base: Address) returns (process: Process, at: Address)
    requires base > 0
    ensures fresh(process) && process.Valid() && process.base == base && InPool(base, at)
    ensures PoolGave(at, true) in process.log && LibcTook(at, true, true) in process.log
  {
    assert PoolSpec.EndOf([]) == 0;
    process := new Process(base);
    process.busy, process.onceRunning, process.isInitFunction := true, true, true;
    at := process.Mallocn(8, 0, []);
    assert process.log == [PoolGave(at, true)];
    process.isInitFunction, process.isNotInited, process.onceRunning := false, false, false;
    process.TestOperatorDelete(at, 0, Provoked([], []));
    assert process.log[0] == PoolGave(at, true) && process.log[|process.log| - 1] == LibcTook(at, true, true);
    process.busy := false;
  }
}
