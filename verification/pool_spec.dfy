/** The bootstrap pool as a list of blocks, without bytes or pointers: what each operation does to
    the blocks, and what therefore holds after every run of the pool. */
module PoolSpec {
  import opened Words

  /** sizeof(Item) on a 64-bit machine: count, isInUse, prev and next, one word each. */
  const HEADER: nat := 32

  /** One block: its header starts at `off`, its `count` payload bytes follow the header. */
  datatype Block = Block(off: nat, count: nat, inUse: bool) {
    function Payload(): nat { off + HEADER }
    function End(): nat { off + HEADER + count }
  }

  type Blocks = seq<Block>

  function EndOf(blocks: Blocks): nat {
    if blocks == [] then 0 else blocks[|blocks| - 1].End()
  }

  /** Blocks follow each other without gap or overlap, starting at offset 0. */
  ghost predicate Adjacent(blocks: Blocks) {
    && (blocks != [] ==> blocks[0].off == 0)
    && forall i :: 0 < i < |blocks| ==> blocks[i].off == blocks[i - 1].End()
  }

  /** The blocks tile [0, EndOf) and the last of them is in use. */
  ghost predicate Tiling(blocks: Blocks) {
    && Adjacent(blocks)
    && (blocks != [] ==> blocks[|blocks| - 1].inUse)
  }

  ghost predicate WellSized(blocks: Blocks, size: nat) {
    Tiling(blocks) && EndOf(blocks) < size
  }

  // ---- geometry -------------------------------------------------------------------------

  lemma {:induction false} Ordered(blocks: Blocks, i: nat, j: nat)
    requires Adjacent(blocks) && i < j < |blocks|
    ensures blocks[i].End() <= blocks[j].off
    decreases j
  {
    if i < j - 1 {
      Ordered(blocks, i, j - 1);
    }
  }

  lemma BelowEnd(blocks: Blocks, i: nat)
    requires Adjacent(blocks) && i < |blocks|
    ensures blocks[i].End() <= EndOf(blocks)
  {
    if i < |blocks| - 1 {
      Ordered(blocks, i, |blocks| - 1);
    }
  }

  ghost predicate Holds(blocks: Blocks, i: int, p: nat) {
    0 <= i < |blocks| && blocks[i].off <= p < blocks[i].End()
  }

  /** Every offset below the end belongs to exactly one block. */
  lemma {:induction false} TilesExactly(blocks: Blocks, p: nat)
    requires Adjacent(blocks) && p < EndOf(blocks)
    ensures exists i :: Holds(blocks, i, p)
    ensures forall i, j :: Holds(blocks, i, p) && Holds(blocks, j, p) ==> i == j
  {
    var last := |blocks| - 1;
    if blocks[last].off <= p {
      assert Holds(blocks, last, p);
    } else {
      assert EndOf(blocks[..last]) == blocks[last].off;
      TilesExactly(blocks[..last], p);
      var i :| Holds(blocks[..last], i, p);
      assert Holds(blocks, i, p);
    }
    forall i, j | Holds(blocks, i, p) && Holds(blocks, j, p)
      ensures i == j
    {
      if i < j { Ordered(blocks, i, j); }
      if j < i { Ordered(blocks, j, i); }
    }
  }

  /** The bytes handed out to clients, including those waiting to be reclaimed. */
  ghost predicate InPayload(blocks: Blocks, p: nat) {
    exists i :: 0 <= i < |blocks| && blocks[i].Payload() <= p < blocks[i].End()
  }

  /** No byte of any header is a payload byte of any block, live or not. */
  lemma HeadersApart(blocks: Blocks, j: nat, p: nat)
    requires Adjacent(blocks) && j < |blocks|
    requires blocks[j].off <= p < blocks[j].Payload()
    ensures forall i :: 0 <= i < |blocks| ==> !(blocks[i].Payload() <= p < blocks[i].End())
  {
    forall i | 0 <= i < |blocks|
      ensures !(blocks[i].Payload() <= p < blocks[i].End())
    {
      if i < j { Ordered(blocks, i, j); }
      if j < i { Ordered(blocks, j, i); }
    }
  }

  // ---- what the operations do to the blocks ----------------------------------------------

  predicate Fits(blocks: Blocks, count: nat, size: nat) {
    EndOf(blocks) + HEADER + count < size
  }

  function AfterAlloc(blocks: Blocks, count: nat, size: nat): Blocks {
    if Fits(blocks, count, size) then blocks + [Block(EndOf(blocks), count, true)] else blocks
  }

  /** Drops the blocks at the end that are no longer in use. */
  function DropDead(blocks: Blocks): (r: Blocks)
    ensures r <= blocks
    ensures r != [] ==> r[|r| - 1].inUse
    ensures forall i :: |r| <= i < |blocks| ==> !blocks[i].inUse
  {
    if blocks == [] || blocks[|blocks| - 1].inUse then blocks else DropDead(blocks[..|blocks| - 1])
  }

  /** Freeing the last block reclaims it and every dead block before it; freeing any other block
      only marks it. */
  function AfterFree(blocks: Blocks, i: nat): Blocks
    requires i < |blocks|
  {
    if i == |blocks| - 1 then DropDead(blocks[..i]) else blocks[i := blocks[i].(inUse := false)]
  }

  function Resized(blocks: Blocks, i: nat, count: nat): Blocks
    requires i < |blocks|
  {
    blocks[i := blocks[i].(count := count)]
  }

  function AfterRealloc(blocks: Blocks, i: nat, count: nat, size: nat): Blocks
    requires i < |blocks|
  {
    if count == 0 then AfterFree(blocks, i)
    else if count == blocks[i].count then blocks
    else if i == |blocks| - 1 then
      (if blocks[i].Payload() + count < size then Resized(blocks, i, count) else blocks)
    else AfterAlloc(AfterFree(blocks, i), count, size)
  }

  /** Payload offset handed back by a realloc of block i, if any. A block that is not the last one
      is freed first and a fresh block allocated; its bytes are not copied. */
  function ReallocResult(blocks: Blocks, i: nat, count: nat, size: nat): (r: int)
    requires i < |blocks|
  {
    if count == 0 then -1
    else if count == blocks[i].count then blocks[i].Payload()
    else if i == |blocks| - 1 then
      (if blocks[i].Payload() + count < size then blocks[i].Payload() else -1)
    else if Fits(AfterFree(blocks, i), count, size) then EndOf(AfterFree(blocks, i)) + HEADER
    else -1
  }

  lemma AllocKeepsTiling(blocks: Blocks, count: nat, size: nat)
    requires WellSized(blocks, size)
    ensures WellSized(AfterAlloc(blocks, count, size), size)
  {
  }

  lemma FreeKeepsTiling(blocks: Blocks, i: nat, size: nat)
    requires WellSized(blocks, size) && i < |blocks|
    ensures WellSized(AfterFree(blocks, i), size)
    ensures EndOf(AfterFree(blocks, i)) <= EndOf(blocks)
  {
    var r := AfterFree(blocks, i);
    if i == |blocks| - 1 {
      if r != [] {
        assert r[|r| - 1] == blocks[|r| - 1];
        BelowEnd(blocks, |r| - 1);
      }
    }
  }

  lemma ReallocKeepsTiling(blocks: Blocks, i: nat, count: nat, size: nat)
    requires WellSized(blocks, size) && i < |blocks|
    ensures WellSized(AfterRealloc(blocks, i, count, size), size)
  {
    FreeKeepsTiling(blocks, i, size);
    AllocKeepsTiling(AfterFree(blocks, i), count, size);
  }

  // ---- the client's view: live payload intervals ------------------------------------------

  ghost predicate IsLive(blocks: Blocks, payload: nat, count: nat) {
    exists i :: 0 <= i < |blocks| && blocks[i].inUse && blocks[i].Payload() == payload && blocks[i].count == count
  }

  ghost predicate LiveIndex(blocks: Blocks, i: int) {
    0 <= i < |blocks| && blocks[i].inUse
  }

  /** Live payloads of different blocks never overlap. */
  lemma LivePayloadsDisjoint(blocks: Blocks, i: nat, j: nat)
    requires Adjacent(blocks) && i < |blocks| && j < |blocks| && i != j
    ensures blocks[i].End() <= blocks[j].off || blocks[j].End() <= blocks[i].off
    ensures blocks[i].Payload() != blocks[j].Payload()
  {
    if i < j { Ordered(blocks, i, j); } else { Ordered(blocks, j, i); }
  }

  /** Allocation adds exactly one live interval and keeps all the others. */
  lemma AllocAddsOne(blocks: Blocks, count: nat, size: nat)
    requires WellSized(blocks, size) && Fits(blocks, count, size)
    ensures var p := EndOf(blocks) + HEADER;
      && (forall q: nat, n: nat :: IsLive(AfterAlloc(blocks, count, size), q, n) <==>
          IsLive(blocks, q, n) || (q == p && n == count))
      && (forall q: nat, n: nat :: IsLive(blocks, q, n) ==> q + n <= p - HEADER)
  {
    var r := AfterAlloc(blocks, count, size);
    var p := EndOf(blocks) + HEADER;
    forall q: nat, n: nat
      ensures IsLive(r, q, n) <==> IsLive(blocks, q, n) || (q == p && n == count)
      ensures IsLive(blocks, q, n) ==> q + n <= p - HEADER
    {
      if IsLive(blocks, q, n) {
        var i :| 0 <= i < |blocks| && blocks[i].inUse && blocks[i].Payload() == q && blocks[i].count == n;
        BelowEnd(blocks, i);
        assert r[i] == blocks[i];
      }
      if q == p && n == count {
        assert r[|blocks|] == Block(EndOf(blocks), count, true);
      }
    }
  }

  /** Freeing a live block removes exactly its interval, whichever branch the pool takes. */
  lemma FreeRemovesOne(blocks: Blocks, i: nat)
    requires Adjacent(blocks) && LiveIndex(blocks, i)
    ensures forall q: nat, n: nat :: IsLive(AfterFree(blocks, i), q, n) <==>
        IsLive(blocks, q, n) && q != blocks[i].Payload()
  {
    var r := AfterFree(blocks, i);
    forall q: nat, n: nat
      ensures IsLive(r, q, n) <==> IsLive(blocks, q, n) && q != blocks[i].Payload()
    {
      if IsLive(r, q, n) {
        var k :| 0 <= k < |r| && r[k].inUse && r[k].Payload() == q && r[k].count == n;
        assert r[k] == blocks[k];
        LivePayloadsDisjoint(blocks, k, i);
      }
      if IsLive(blocks, q, n) && q != blocks[i].Payload() {
        var k :| 0 <= k < |blocks| && blocks[k].inUse && blocks[k].Payload() == q && blocks[k].count == n;
        assert k != i;
        if i == |blocks| - 1 {
          assert blocks[..i][k] == blocks[k];
          assert k < |r|;
        }
        assert r[k] == blocks[k];
      }
    }
  }

  /** A realloc leaves every other live interval alone; the block itself either survives with the new
      size at the returned offset, or is given up. When no space is left a moved block is lost, and
      a last block that cannot grow is kept with its old size. */
  lemma ReallocTouchesOne(blocks: Blocks, i: nat, count: nat, size: nat)
    requires WellSized(blocks, size) && LiveIndex(blocks, i)
    ensures var r := AfterRealloc(blocks, i, count, size);
      var p := ReallocResult(blocks, i, count, size);
      && (forall q: nat, n: nat :: q != blocks[i].Payload() && q != p ==> (IsLive(r, q, n) <==> IsLive(blocks, q, n)))
      && (forall n: nat :: p >= 0 ==> (IsLive(r, p, n) <==> n == count))
      && (p < 0 ==> forall n: nat :: IsLive(r, blocks[i].Payload(), n) <==>
            (i == |blocks| - 1 && count != 0 && n == blocks[i].count))
      && (p >= 0 && p != blocks[i].Payload() ==> forall n: nat :: !IsLive(r, blocks[i].Payload(), n))
  {
    var r := AfterRealloc(blocks, i, count, size);
    var p := ReallocResult(blocks, i, count, size);
    if count == 0 {
      FreeRemovesOne(blocks, i);
    } else if count == blocks[i].count || i == |blocks| - 1 {
      assert |r| == |blocks| && forall k :: 0 <= k < |r| && k != i ==> r[k] == blocks[k];
      forall q: nat, n: nat
        ensures IsLive(r, q, n) <==> if q == blocks[i].Payload() then n == r[i].count else IsLive(blocks, q, n)
      {
        SameExcept(blocks, r, i, q, n);
      }
      forall n: nat ensures IsLive(blocks, blocks[i].Payload(), n) <==> n == blocks[i].count {
        SameExcept(blocks, blocks, i, blocks[i].Payload(), n);
      }
    } else {
      var mid := AfterFree(blocks, i);
      FreeKeepsTiling(blocks, i, size);
      FreeRemovesOne(blocks, i);
      BelowEnd(mid, i);
      if Fits(mid, count, size) {
        AllocAddsOne(mid, count, size);
      }
    }
  }

  /** When a realloc of a live block to a positive size answers with a payload, and where. The last block
      keeps its payload if it has that size already or if the size fits the buffer from there on; any
      other block keeps its payload if it has that size already, and gets a new one behind all blocks if
      header and size fit there. Otherwise the answer is null. */
  lemma ReallocGrants(blocks: Blocks, i: nat, count: nat, size: nat)
    requires WellSized(blocks, size) && LiveIndex(blocks, i) && count != 0
    ensures
      var block, p := blocks[i], ReallocResult(blocks, i, count, size);
      && (p >= 0 ==> IsLive(AfterRealloc(blocks, i, count, size), p, count))
      && (i == |blocks| - 1 ==> (p >= 0 <==> count == block.count || block.off + 32 + count < size))
      && (i == |blocks| - 1 && p >= 0 ==> p == block.off + 32)
      && (i < |blocks| - 1 ==> (p >= 0 <==> count == block.count || EndOf(blocks) + 32 + count < size))
      && (i < |blocks| - 1 && p >= 0 ==> p == if count == block.count then block.off + 32 else EndOf(blocks) + 32)
  {
    ReallocTouchesOne(blocks, i, count, size);
  }

  lemma SameExcept(blocks: Blocks, r: Blocks, i: nat, q: nat, n: nat)
    requires Adjacent(blocks) && LiveIndex(blocks, i) && |r| == |blocks| && r[i].inUse
    requires r[i].off == blocks[i].off && forall k :: 0 <= k < |r| && k != i ==> r[k] == blocks[k]
    ensures IsLive(r, q, n) <==> if q == blocks[i].Payload() then n == r[i].count else IsLive(blocks, q, n)
  {
    assert r[i].Payload() == blocks[i].Payload();
    forall k | 0 <= k < |r| && k != i ensures r[k].Payload() != r[i].Payload() {
      LivePayloadsDisjoint(blocks, k, i);
    }
    if IsLive(blocks, q, n) {
      var k :| 0 <= k < |blocks| && blocks[k].inUse && blocks[k].Payload() == q && blocks[k].count == n;
      assert k != i ==> r[k] == blocks[k];
    }
  }

  // ---- runs ---------------------------------------------------------------------------------

  /** A request to the pool; Free and Realloc name the payload offset they are given. */
  datatype Request = Alloc(count: nat) | Free(payload: nat) | Realloc(payload: nat, size: nat)

  ghost predicate Names(blocks: Blocks, payload: nat, i: int) {
    LiveIndex(blocks, i) && blocks[i].Payload() == payload
  }

  ghost predicate IsLivePayload(blocks: Blocks, payload: nat) {
    exists i :: Names(blocks, payload, i)
  }

  /** A request that names no live block is a client error; the pool's answer to it is not modelled. */
  ghost predicate Legal(blocks: Blocks, r: Request) {
    match r
    case Alloc(_) => true
    case Free(p) => IsLivePayload(blocks, p)
    case Realloc(p, _) => IsLivePayload(blocks, p)
  }

  ghost function Serve(blocks: Blocks, r: Request, size: nat): Blocks
    requires Legal(blocks, r)
  {
    match r
    case Alloc(n) => AfterAlloc(blocks, n, size)
    case Free(p) => var i :| Names(blocks, p, i); AfterFree(blocks, i)
    case Realloc(p, n) => var i :| Names(blocks, p, i); AfterRealloc(blocks, i, n, size)
  }

  ghost predicate LegalRun(blocks: Blocks, run: seq<Request>, size: nat)
    decreases |run|
  {
    run == [] || (Legal(blocks, run[0]) && LegalRun(Serve(blocks, run[0], size), run[1..], size))
  }

  ghost function ServeAll(blocks: Blocks, run: seq<Request>, size: nat): Blocks
    requires LegalRun(blocks, run, size)
    decreases |run|
  {
    if run == [] then blocks else ServeAll(Serve(blocks, run[0], size), run[1..], size)
  }

  /** After every run the blocks tile the used part, the last one is in use, and the used part ends
      below the buffer size. */
  lemma {:induction false} EveryRunTiles(blocks: Blocks, run: seq<Request>, size: nat)
    requires WellSized(blocks, size) && LegalRun(blocks, run, size)
    ensures WellSized(ServeAll(blocks, run, size), size)
    decreases |run|
  {
    if run != [] {
      match run[0] {
        case Alloc(n) =>
          AllocKeepsTiling(blocks, n, size);
        case Free(p) =>
          var i :| Names(blocks, p, i) && Serve(blocks, run[0], size) == AfterFree(blocks, i);
          FreeKeepsTiling(blocks, i, size);
        case Realloc(p, n) =>
          var i :| Names(blocks, p, i) && Serve(blocks, run[0], size) == AfterRealloc(blocks, i, n, size);
          ReallocKeepsTiling(blocks, i, n, size);
      }
      EveryRunTiles(Serve(blocks, run[0], size), run[1..], size);
    }
  }

  function FreeAll(order: seq<nat>): seq<Request> {
    seq(|order|, k requires 0 <= k < |order| => Free(order[k]))
  }

  ghost predicate Distinct(s: seq<nat>) {
    forall a, b :: 0 <= a < b < |s| ==> s[a] != s[b]
  }

  /** `order` lists every live payload once. */
  ghost predicate ListsAllLive(blocks: Blocks, order: seq<nat>) {
    && Distinct(order)
    && (forall k :: 0 <= k < |order| ==> IsLivePayload(blocks, order[k]))
    && (forall i :: LiveIndex(blocks, i) ==> blocks[i].Payload() in order)
  }

  /** Freeing all live blocks, in any order, brings the pool back to its empty state. */
  lemma {:induction false} FreeingAllEmpties(blocks: Blocks, order: seq<nat>, size: nat)
    requires WellSized(blocks, size) && ListsAllLive(blocks, order)
    ensures LegalRun(blocks, FreeAll(order), size)
    ensures ServeAll(blocks, FreeAll(order), size) == []
    decreases |order|
  {
    var run := FreeAll(order);
    if order == [] {
      assert !LiveIndex(blocks, |blocks| - 1);
    } else {
      assert run[0] == Free(order[0]);
      assert IsLivePayload(blocks, order[0]);
      var i :| Names(blocks, order[0], i) && Serve(blocks, run[0], size) == AfterFree(blocks, i);
      var next := AfterFree(blocks, i);
      FreeKeepsTiling(blocks, i, size);
      StillListed(blocks, order, i);
      assert run[1..] == FreeAll(order[1..]);
      FreeingAllEmpties(next, order[1..], size);
    }
  }

  lemma StillListed(blocks: Blocks, order: seq<nat>, i: nat)
    requires Adjacent(blocks) && ListsAllLive(blocks, order) && order != []
    requires Names(blocks, order[0], i)
    ensures ListsAllLive(AfterFree(blocks, i), order[1..])
  {
    var next := AfterFree(blocks, i);
    FreeRemovesOne(blocks, i);
    forall k | 0 <= k < |order[1..]|
      ensures IsLivePayload(next, order[1..][k])
    {
      var p := order[k + 1];
      assert IsLivePayload(blocks, p);
      var j :| Names(blocks, p, j);
      assert IsLive(blocks, p, blocks[j].count);
      assert IsLive(next, p, blocks[j].count);
      var m :| 0 <= m < |next| && next[m].inUse && next[m].Payload() == p && next[m].count == blocks[j].count;
      assert Names(next, p, m);
    }
    forall j | LiveIndex(next, j)
      ensures next[j].Payload() in order[1..]
    {
      assert IsLive(next, next[j].Payload(), next[j].count);
      assert IsLive(blocks, next[j].Payload(), next[j].count);
      var m :| 0 <= m < |blocks| && blocks[m].inUse && blocks[m].Payload() == next[j].Payload()
        && blocks[m].count == next[j].count;
      assert LiveIndex(blocks, m);
    }
  }

  // ---- size_t ---------------------------------------------------------------------------------

  /** The guard of Alloc as the machine computes it. */
  predicate AllocGuard(count: nat, offset: nat, size: nat) {
    Wrap(Wrap(count + HEADER) + offset) < size
  }

  /** When the guard lets a request through, the new block really fits the buffer exactly when the
      size computation did not wrap around. */
  lemma AllocGuardExact(count: nat, offset: nat, size: nat)
    requires count < WORD_LIMIT && offset < size < WORD_LIMIT && AllocGuard(count, offset, size)
    ensures offset + HEADER + count < size <==> count + HEADER + offset < WORD_LIMIT
  {
  }

  /** A request of 2^64 - 32 bytes is granted by an empty one-megabyte pool. */
  lemma HugeRequestGranted()
    ensures AllocGuard(WORD_LIMIT - HEADER, 0, 1048576) && !Fits([], WORD_LIMIT - HEADER, 1048576)
  {
  }

  /** The guard with which realloc grows or shrinks the last block in place. */
  predicate GrowGuard(payload: nat, count: nat, size: nat) {
    Wrap(payload + count) < size
  }

  /** When that guard lets a request through, the resized block fits the buffer exactly when payload and
      size did not wrap around; only then is the new m_unOffset the end of the block, and otherwise it
      falls before the block's payload. */
  lemma GrowGuardExact(blocks: Blocks, count: nat, size: nat)
    requires blocks != [] && count < WORD_LIMIT && size < WORD_LIMIT
    requires var payload := blocks[|blocks| - 1].Payload(); payload < WORD_LIMIT && GrowGuard(payload, count, size)
    ensures
      var payload := blocks[|blocks| - 1].Payload();
      && (payload + count < size <==> payload + count < WORD_LIMIT)
      && (Wrap(payload + count) == EndOf(Resized(blocks, |blocks| - 1, count)) <==> payload + count < WORD_LIMIT)
      && (payload + count >= WORD_LIMIT ==> Wrap(payload + count) < payload)
  {
    var payload := blocks[|blocks| - 1].Payload();
    if payload + count >= WORD_LIMIT {
      assert Wrap(payload + count) == payload + count - WORD_LIMIT;
    }
  }

  /** Growing the only block, of 8 bytes, to 2^64 - 1 bytes is granted, and moves m_unOffset into the
      block's own header. */
  lemma HugeGrowthGranted()
    ensures var block := Block(0, 8, true);
      && WellSized([block], 1048576)
      && GrowGuard(block.Payload(), WORD_LIMIT - 1, 1048576)
      && block.off < Wrap(block.Payload() + (WORD_LIMIT - 1)) < block.Payload()
  {
  }

  /** The size computation of Alloc does not wrap around, or does not let the request through. */
  predicate AllocHonest(count: nat, offset: nat, size: nat) {
    count < WORD_LIMIT && (AllocGuard(count, offset, size) ==> count + HEADER + offset < WORD_LIMIT)
  }

  /** The same for the size computation that a realloc of block i comes to, if it comes to one. */
  predicate ReallocHonest(blocks: Blocks, i: nat, count: nat, size: nat)
    requires i < |blocks|
  {
    && count < WORD_LIMIT
    && (count != 0 && count != blocks[i].count ==>
          if i == |blocks| - 1 then
            (GrowGuard(blocks[i].Payload(), count, size) ==> blocks[i].Payload() + count < WORD_LIMIT)
          else AllocHonest(count, EndOf(AfterFree(blocks, i)), size))
  }
}
