/** The bootstrap pool itself: block headers are 64-bit words stored in the same byte buffer as the
    payloads, linked through absolute addresses. Every method is proved against PoolSpec. */
module MemoryPool {
  import opened Words
  import opened PoolSpec

  const NULL: nat := 0

  /** Address of the i-th header, null when there is no such block. */
  function AddressOf(base: nat, blocks: Blocks, i: int): nat {
    if 0 <= i < |blocks| then base + blocks[i].off else NULL
  }

  function Flag(inUse: bool): nat { if inUse then 1 else 0 }

  /** The 32 bytes at the block's offset spell its header. */
  ghost predicate HeaderStored(b: seq<Byte>, base: nat, blocks: Blocks, i: int)
    requires 0 <= i < |blocks|
  {
    var o := blocks[i].off;
    && o + HEADER <= |b|
    && Word(b, o) == blocks[i].count
    && Word(b, o + 8) == Flag(blocks[i].inUse)
    && Word(b, o + 16) == AddressOf(base, blocks, i - 1)
    && Word(b, o + 24) == AddressOf(base, blocks, i + 1)
  }

  ghost predicate Stored(b: seq<Byte>, base: nat, blocks: Blocks) {
    forall i :: 0 <= i < |blocks| ==> HeaderStored(b, base, blocks, i)
  }

  lemma HeadersOrdered(blocks: Blocks)
    requires Adjacent(blocks)
    ensures forall i, j :: 0 <= i < j < |blocks| ==> blocks[i].off + HEADER <= blocks[j].off
    ensures forall i :: 0 <= i < |blocks| ==> blocks[i].End() <= EndOf(blocks)
  {
    forall i, j | 0 <= i < j < |blocks| ensures blocks[i].off + HEADER <= blocks[j].off {
      Ordered(blocks, i, j);
    }
    forall i | 0 <= i < |blocks| ensures blocks[i].End() <= EndOf(blocks) {
      BelowEnd(blocks, i);
    }
  }

  /** A client that writes one of its payload bytes cannot damage any header. */
  lemma ClientWriteKeepsHeaders(b: seq<Byte>, base: nat, blocks: Blocks, p: nat, v: Byte)
    requires Adjacent(blocks) && Stored(b, base, blocks)
    requires p < |b| && InPayload(blocks, p)
    ensures Stored(b[p := v], base, blocks)
  {
    var after := b[p := v];
    forall i | 0 <= i < |blocks| ensures HeaderStored(after, base, blocks, i) {
      var o := blocks[i].off;
      if o <= p < o + HEADER {
        HeadersApart(blocks, i, p);
      }
      assert HeaderStored(b, base, blocks, i);
      assert after[o..o + 8] == b[o..o + 8] && after[o + 8..o + 16] == b[o + 8..o + 16];
      assert after[o + 16..o + 24] == b[o + 16..o + 24] && after[o + 24..o + 32] == b[o + 24..o + 32];
    }
  }

  /** The bytes spell the given header at offset o. */
  ghost predicate SpellsHeader(b: seq<Byte>, o: nat, count: nat, inUse: nat, prev: nat, next: nat) {
    && o + HEADER <= |b|
    && Word(b, o) == count && Word(b, o + 8) == inUse && Word(b, o + 16) == prev && Word(b, o + 24) == next
  }

  /** Allocation: the old last block learns its successor, a new header follows the tiling. */
  lemma StoredAfterAlloc(b0: seq<Byte>, b1: seq<Byte>, b2: seq<Byte>, base: nat, blocks: Blocks, count: nat)
    requires Adjacent(blocks) && Stored(b0, base, blocks)
    requires if blocks == [] then b1 == b0 else
        var o := blocks[|blocks| - 1].off + 24;
        o + 8 <= |b1| && SameOutside(b0, b1, o, o + 8) && Word(b1, o) == base + EndOf(blocks)
    requires SameOutside(b1, b2, EndOf(blocks), EndOf(blocks) + HEADER)
    requires SpellsHeader(b2, EndOf(blocks), count, 1, AddressOf(base, blocks, |blocks| - 1), NULL)
    ensures Stored(b2, base, blocks + [Block(EndOf(blocks), count, true)])
    ensures forall p: nat :: p < |b0| && InPayload(blocks, p) ==> b2[p] == b0[p]
    ensures forall p: nat :: EndOf(blocks) + HEADER <= p < |b0| ==> b2[p] == b0[p]
  {
    hide Word;
    var r := blocks + [Block(EndOf(blocks), count, true)];
    var n := |blocks|;
    HeadersOrdered(blocks);
    forall i | 0 <= i < |r| ensures HeaderStored(b2, base, r, i) {
      if i < n {
        assert HeaderStored(b0, base, blocks, i);
        assert r[i] == blocks[i];
        if i < n - 1 {
          assert blocks[i].off + HEADER <= blocks[n - 1].off;
          assert r[i + 1] == blocks[i + 1];
        }
      }
    }
    forall p: nat | p < |b0| && InPayload(blocks, p) ensures b2[p] == b0[p] {
      var i :| 0 <= i < n && blocks[i].Payload() <= p < blocks[i].End();
      if blocks[n - 1].off <= p < blocks[n - 1].Payload() {
        HeadersApart(blocks, n - 1, p);
      }
    }
  }

  /** A write inside one header changes no payload byte, and none behind the blocks. */
  lemma HeaderWriteKeepsPayloads(b0: seq<Byte>, b1: seq<Byte>, blocks: Blocks, i: nat, k: nat)
    requires Adjacent(blocks) && i < |blocks| && k + 8 <= HEADER
    requires SameOutside(b0, b1, blocks[i].off + k, blocks[i].off + k + 8)
    ensures forall p: nat :: p < |b0| && InPayload(blocks, p) ==> b1[p] == b0[p]
    ensures forall p: nat :: EndOf(blocks) <= p < |b0| ==> b1[p] == b0[p]
  {
    BelowEnd(blocks, i);
    forall p: nat | p < |b0| && InPayload(blocks, p) ensures b1[p] == b0[p] {
      var j :| 0 <= j < |blocks| && blocks[j].Payload() <= p < blocks[j].End();
      if blocks[i].off <= p < blocks[i].Payload() {
        HeadersApart(blocks, i, p);
      }
    }
  }

  lemma StoredAfterMark(b0: seq<Byte>, b1: seq<Byte>, base: nat, blocks: Blocks, i: nat)
    requires Adjacent(blocks) && Stored(b0, base, blocks) && i < |blocks|
    requires var o := blocks[i].off + 8; o + 8 <= |b1| && SameOutside(b0, b1, o, o + 8) && Word(b1, o) == 0
    ensures Stored(b1, base, blocks[i := blocks[i].(inUse := false)])
  {
    hide Word;
    var r := blocks[i := blocks[i].(inUse := false)];
    HeadersOrdered(blocks);
    forall j | 0 <= j < |r| ensures HeaderStored(b1, base, r, j) {
      assert HeaderStored(b0, base, blocks, j);
      assert r[j].off == blocks[j].off;
    }
  }

  lemma StoredAfterCut(b0: seq<Byte>, b1: seq<Byte>, base: nat, blocks: Blocks, i: nat)
    requires Adjacent(blocks) && Stored(b0, base, blocks) && i < |blocks|
    requires var o := blocks[i].off + 24; o + 8 <= |b1| && SameOutside(b0, b1, o, o + 8) && Word(b1, o) == NULL
    ensures Stored(b1, base, blocks[..i + 1])
  {
    hide Word;
    var r := blocks[..i + 1];
    HeadersOrdered(blocks);
    forall j | 0 <= j < |r| ensures HeaderStored(b1, base, r, j) {
      assert HeaderStored(b0, base, blocks, j);
      assert r[j] == blocks[j];
    }
  }

  lemma StoredAfterResize(b0: seq<Byte>, b1: seq<Byte>, base: nat, blocks: Blocks, count: nat)
    requires Adjacent(blocks) && Stored(b0, base, blocks) && blocks != []
    requires var o := blocks[|blocks| - 1].off; o + 8 <= |b1| && SameOutside(b0, b1, o, o + 8) && Word(b1, o) == count
    ensures Stored(b1, base, Resized(blocks, |blocks| - 1, count))
  {
    hide Word;
    var r := Resized(blocks, |blocks| - 1, count);
    HeadersOrdered(blocks);
    forall j | 0 <= j < |r| ensures HeaderStored(b1, base, r, j) {
      assert HeaderStored(b0, base, blocks, j);
      assert r[j].off == blocks[j].off;
    }
  }

  lemma DropDeadSplit(blocks: Blocks, j: nat)
    requires j < |blocks|
    ensures DropDead(blocks[..j + 1]) == if blocks[j].inUse then blocks[..j + 1] else DropDead(blocks[..j])
    ensures DropDead(blocks[..0]) == []
  {
    assert blocks[..j + 1][..j] == blocks[..j];
  }

  class MemoryPoolBase {
    const base: nat
    const buffer: array<Byte>
    var offset: nat
    var first: nat
    var last: nat
    ghost var blocks: Blocks

    ghost predicate Valid()
      reads this, buffer
    {
      && 0 < base && base + buffer.Length <= WORD_LIMIT
      && WellSized(blocks, buffer.Length)
      && offset == EndOf(blocks)
      && first == AddressOf(base, blocks, 0)
      && last == AddressOf(base, blocks, |blocks| - 1)
      && Stored(buffer[..], base, blocks)
    }

    /** No payload byte of the blocks `bs` was touched. */
    twostate predicate PayloadsKept(bs: Blocks)
      reads this, buffer
    {
      forall p: nat :: p < buffer.Length && InPayload(bs, p) ==> buffer[p] == old(buffer[p])
    }

    /** No byte from offset `o` on was touched. */
    twostate predicate KeptFrom(o: nat)
      reads buffer
    {
      forall p: nat :: o <= p < buffer.Length ==> buffer[p] == old(buffer[p])
    }

    constructor (base: nat, buffer: array<Byte>)
      requires 0 < base && base + buffer.Length <= WORD_LIMIT && buffer.Length > 0
      ensures Valid() && blocks == [] && this.base == base && this.buffer == buffer
    {
      this.base, this.buffer := base, buffer;
      offset, first, last := 0, NULL, NULL;
      blocks := [];
    }

    function OffsetOf(ptr: nat): nat { Wrap(ptr - base) }

    /** A pointer the pool may be given: foreign, or the payload of a live block. */
    ghost predicate Accepts(ptr: nat)
      reads this
    {
      ptr < WORD_LIMIT && (OffsetOf(ptr) < buffer.Length ==> IsLivePayload(blocks, OffsetOf(ptr)))
    }

    /** The size computation of Alloc does not wrap around, or at least does not let the request through. */
    predicate SizeHonest(count: nat)
      reads this
    {
      AllocHonest(count, offset, buffer.Length)
    }

    lemma GuardDecides(count: nat)
      requires Valid() && SizeHonest(count)
      ensures Wrap(Wrap(count + HEADER) + offset) < buffer.Length <==> Fits(blocks, count, buffer.Length)
      ensures Fits(blocks, count, buffer.Length) ==> Wrap(count + HEADER) == count + HEADER
    {
    }

    method Alloc(count: nat) returns (ptr: nat)
      requires Valid() && SizeHonest(count)
      modifies this, buffer
      ensures Valid() && blocks == old(AfterAlloc(blocks, count, buffer.Length))
      ensures ptr == if old(offset) + 32 + count < buffer.Length then base + old(offset) + 32 else NULL
      ensures ptr != NULL ==> IsLive(blocks, ptr - base, count)
      ensures PayloadsKept(old(blocks)) && KeptFrom(old(offset) + HEADER)
    {
      hide Valid, Wrap, InPayload;
      var overallSize := Wrap(count + HEADER);
      UsedPart();
      GuardDecides(count);
      if Wrap(overallSize + offset) < buffer.Length {
        ptr := Append(count, overallSize);
        assert blocks[|blocks| - 1].Payload() == ptr - base;
      } else {
        ptr := NULL;
      }
    }

    lemma UsedPart()
      requires Valid()
      ensures offset == EndOf(blocks) < buffer.Length
    {
    }

    /** The old last block, or m_pFirst, learns the address of its successor. */
    method LinkLast(item: nat)
      requires Valid() && item < WORD_LIMIT
      modifies this`first, buffer
      ensures first == if blocks == [] then item else old(first)
      ensures if blocks == [] then buffer[..] == old(buffer[..]) else
          var o := blocks[|blocks| - 1].off + 24;
          o + 8 <= buffer.Length && SameOutside(old(buffer[..]), buffer[..], o, o + 8) && Word(buffer[..], o) == item
    {
      hide Word, SameOutside, Stored, HeaderStored;
      if last != NULL {
        ReadsHeader(|blocks| - 1);
        WriteWord(buffer, last - base + 24, item);
      } else {
        first := item;
      }
    }

    /** Links a new last block in front of the unused part. */
    method Append(count: nat, overallSize: nat) returns (ptr: nat)
      requires Valid() && Fits(blocks, count, buffer.Length) && overallSize == count + HEADER
      modifies this, buffer
      ensures Valid() && blocks == old(AfterAlloc(blocks, count, buffer.Length))
      ensures ptr == base + old(offset) + HEADER
      ensures PayloadsKept(old(blocks)) && KeptFrom(old(offset) + HEADER)
    {
      hide Word, SameOutside, InPayload, Stored, HeaderStored;
      AllocKeepsTiling(blocks, count, buffer.Length);
      ghost var b0 := buffer[..];
      var item := base + offset;
      LinkLast(item);
      ghost var b1 := buffer[..];
      WriteHeader(offset, count, 1, last, NULL);
      StoredAfterAlloc(b0, b1, buffer[..], base, blocks, count);
      last := item;
      offset := offset + overallSize;
      ptr := item + HEADER;
      blocks := AfterAlloc(blocks, count, buffer.Length);
    }

    method WriteHeader(o: nat, count: nat, inUse: nat, prev: nat, next: nat)
      requires o + HEADER <= buffer.Length
      requires count < WORD_LIMIT && inUse < WORD_LIMIT && prev < WORD_LIMIT && next < WORD_LIMIT
      modifies buffer
      ensures SpellsHeader(buffer[..], o, count, inUse, prev, next)
      ensures SameOutside(old(buffer[..]), buffer[..], o, o + HEADER)
    {
      WriteWord(buffer, o + 24, next);
      WriteWord(buffer, o + 16, prev);
      WriteWord(buffer, o, count);
      WriteWord(buffer, o + 8, inUse);
    }

    /** The deferred free: a block that is not the last one is only marked. */
    method DeallocCheckedMemory(ptrOffset: nat, ghost i: nat)
      requires Valid() && Names(blocks, ptrOffset, i)
      modifies this, buffer
      ensures Valid() && blocks == old(AfterFree(blocks, i))
      ensures PayloadsKept(old(blocks)) && KeptFrom(old(offset))
    {
      hide Word, SameOutside, InPayload;
      ghost var b0 := buffer[..];
      var realPtrOffset := ptrOffset - HEADER;
      assert HeaderStored(b0, base, blocks, i);
      LastByEnd(blocks, i);
      var offsetAfterAlloc := ptrOffset + Word(buffer[..], realPtrOffset);
      if offsetAfterAlloc == offset {
        ReclaimTail(realPtrOffset);
        return;
      }
      WriteWord(buffer, realPtrOffset + 8, 0);
      FreeKeepsTiling(blocks, i, buffer.Length);
      StoredAfterMark(b0, buffer[..], base, blocks, i);
      HeaderWriteKeepsPayloads(b0, buffer[..], blocks, i, 8);
      blocks := blocks[i := blocks[i].(inUse := false)];
    }

    /** What the machine reads in the header of block j. */
    lemma ReadsHeader(j: nat)
      requires Valid() && j < |blocks|
      ensures 0 < base && blocks[j].off + HEADER <= buffer.Length
      ensures Word(buffer[..], blocks[j].off) == blocks[j].count
      ensures Word(buffer[..], blocks[j].off + 8) == Flag(blocks[j].inUse)
      ensures Word(buffer[..], blocks[j].off + 16) == AddressOf(base, blocks, j - 1)
      ensures base + blocks[j].off == first <==> j == 0
      ensures j > 0 ==> blocks[j - 1].off < blocks[j].off
    {
      assert HeaderStored(buffer[..], base, blocks, j);
      FirstByOffset(blocks, j);
    }

    /** Freeing the last block walks back over the blocks that were marked before it. */
    method ReclaimTail(lastOffset: nat)
      requires Valid() && blocks != [] && lastOffset == blocks[|blocks| - 1].off
      modifies this, buffer
      ensures Valid() && blocks == old(AfterFree(blocks, |blocks| - 1))
      ensures PayloadsKept(old(blocks)) && KeptFrom(old(offset))
    {
      hide Word, InPayload, Valid, DropDead;
      ghost var j := |blocks| - 2;
      var realPtrOffset := lastOffset;
      var item := base + realPtrOffset;
      ReadsHeader(|blocks| - 1);
      if item == first {
        DropDeadSplit(blocks, 0);
        Clear();
        return;
      }
      item := Word(buffer[..], realPtrOffset + 16);
      while item != NULL
        invariant Valid() && 0 < base && 0 <= j < |blocks| - 1
        invariant item == base + blocks[j].off && realPtrOffset == blocks[j + 1].off
        invariant DropDead(blocks[..|blocks| - 1]) == DropDead(blocks[..j + 1])
        invariant buffer[..] == old(buffer[..]) && blocks == old(blocks) && offset == old(offset)
        decreases item
      {
        ReadsHeader(j);
        DropDeadSplit(blocks, j);
        if Word(buffer[..], item - base + 8) != 0 {
          ghost var b0 := buffer[..];
          CutAfter(j, item, realPtrOffset);
          assert forall p: nat :: p < buffer.Length ==> b0[p] == old(buffer[..])[p];
          break;
        }
        if item == first {
          Clear();
          return;
        }
        var itemPrev := Word(buffer[..], item - base + 16);
        realPtrOffset := item - base;
        item := itemPrev;
        j := j - 1;
      }
    }

    method Clear()
      requires Valid()
      modifies this
      ensures Valid() && blocks == []
    {
      offset, first, last := 0, NULL, NULL;
      blocks := [];
    }

    /** Makes the block at address `item` the last one and gives back everything from `reclaimed` on. */
    method CutAfter(ghost j: nat, item: nat, reclaimed: nat)
      requires Valid() && j < |blocks| - 1 && blocks[j].inUse
      requires item == base + blocks[j].off && reclaimed == blocks[j + 1].off
      modifies this, buffer
      ensures Valid() && blocks == old(blocks[..j + 1])
      ensures PayloadsKept(old(blocks)) && KeptFrom(old(offset))
    {
      hide Word, SameOutside, InPayload;
      ghost var b0 := buffer[..];
      HeadersOrdered(blocks);
      assert HeaderStored(b0, base, blocks, j);
      WriteWord(buffer, item - base + 24, NULL);
      StoredAfterCut(b0, buffer[..], base, blocks, j);
      HeaderWriteKeepsPayloads(b0, buffer[..], blocks, j, 24);
      last := item;
      offset := reclaimed;
      blocks := blocks[..j + 1];
    }

    lemma FirstByOffset(bs: Blocks, i: nat)
      requires Adjacent(bs) && i < |bs|
      ensures bs[i].off == bs[0].off <==> i == 0
    {
      if i > 0 {
        Ordered(bs, 0, i);
      }
    }

    lemma LastByEnd(bs: Blocks, i: nat)
      requires Adjacent(bs) && i < |bs|
      ensures bs[i].End() == EndOf(bs) <==> i == |bs| - 1
    {
      if i < |bs| - 1 {
        Ordered(bs, i, |bs| - 1);
      }
    }

    method Dealloc(ptr: nat) returns (ok: bool)
      requires Valid() && Accepts(ptr)
      modifies this, buffer
      ensures Valid() && PayloadsKept(old(blocks))
      ensures ok == (OffsetOf(ptr) < buffer.Length)
      ensures ok ==> exists i :: Names(old(blocks), OffsetOf(ptr), i) && blocks == AfterFree(old(blocks), i)
      ensures !ok ==> blocks == old(blocks)
    {
      hide Valid, Wrap, InPayload;
      var ptrOffset := Wrap(ptr - base);
      if ptrOffset < buffer.Length {
        ghost var i :| Names(blocks, ptrOffset, i);
        DeallocCheckedMemory(ptrOffset, i);
        return true;
      }
      return false;
    }

    /** Lines 51-55. */
    method AllocZeroed(count: nat) returns (ptr: nat)
      requires Valid() && SizeHonest(count)
      modifies this, buffer
      ensures Valid() && blocks == old(AfterAlloc(blocks, count, buffer.Length))
      ensures ptr == if old(offset) + 32 + count < buffer.Length then base + old(offset) + 32 else NULL
      ensures ptr != NULL ==> IsLive(blocks, ptr - base, count)
      ensures ptr != NULL ==>
          forall p :: 0 <= p - (ptr - base) < count && 0 <= p < buffer.Length ==> buffer[p] == 0
      ensures PayloadsKept(old(blocks))
    {
      ptr := Alloc(count);
      if ptr != NULL {
        HeadersOrdered(old(blocks));
        ZeroLast(ptr - base, count);
      }
    }

    /** A zero-filled block; the product of the two sizes is taken modulo 2^64. */
    method Calloc(nmemb: nat, size: nat) returns (ptr: nat)
      requires Valid() && SizeHonest(nmemb * size % 0x1_0000_0000_0000_0000)
      modifies this, buffer
      ensures Valid() && blocks == old(AfterAlloc(blocks, nmemb * size % 0x1_0000_0000_0000_0000, buffer.Length))
      ensures
        var count := nmemb * size % 0x1_0000_0000_0000_0000;
        && ptr == (if old(offset) + 32 + count < buffer.Length then base + old(offset) + 32 else NULL)
        && (ptr != NULL ==> IsLive(blocks, ptr - base, count))
        && (ptr != NULL ==> forall p :: 0 <= p - (ptr - base) < count && 0 <= p < buffer.Length ==> buffer[p] == 0)
      ensures PayloadsKept(old(blocks))
    {
      var count := Wrap(nmemb * size);
      ptr := AllocZeroed(count);
    }

    /** memset of the newest payload. */
    method ZeroLast(start: nat, count: nat)
      requires Valid() && blocks != [] && start >= HEADER
      requires blocks[|blocks| - 1] == Block(start - HEADER, count, true)
      modifies buffer
      ensures Valid() && forall p :: start <= p < start + count ==> buffer[p] == 0
      ensures forall p :: 0 <= p < buffer.Length && !(start <= p < start + count) ==> buffer[p] == old(buffer[p])
    {
      hide Word, InPayload, Adjacent, Stored;
      for k := 0 to count
        invariant Stored(buffer[..], base, blocks)
        invariant forall p :: start <= p < start + k ==> buffer[p] == 0
        invariant forall p :: 0 <= p < buffer.Length && !(start <= p < start + k) ==> buffer[p] == old(buffer[p])
      {
        LastPayload(blocks, start + k);
        ClientWriteKeepsHeaders(buffer[..], base, blocks, start + k, 0);
        ghost var b := buffer[..];
        buffer[start + k] := 0;
        assert buffer[..] == b[start + k := 0];
      }
    }

    lemma LastPayload(bs: Blocks, p: nat)
      requires Tiling(bs) && bs != [] && bs[|bs| - 1].Payload() <= p < EndOf(bs)
      ensures InPayload(bs, p)
    {
    }

    /** The request's size computation, if there is one, does not wrap around or is not let through. */
    ghost predicate ReallocSizeHonest(ptr: nat, count: nat)
      reads this
    {
      if ptr == NULL then SizeHonest(count)
      else forall i :: Names(blocks, OffsetOf(ptr), i) ==> ReallocHonest(blocks, i, count, buffer.Length)
    }

    /** ok tells whether the pointer belongs to the pool. */
    method Realloc(ptr: nat, count: nat) returns (ok: bool, ret: nat)
      requires Valid() && Accepts(ptr) && ReallocSizeHonest(ptr, count)
      modifies this, buffer
      ensures Valid() && PayloadsKept(old(blocks))
      ensures ok == (ptr == NULL || OffsetOf(ptr) < buffer.Length)
      ensures ptr == NULL ==> blocks == old(AfterAlloc(blocks, count, buffer.Length))
      ensures ptr == NULL ==>
          ret == if old(offset) + 32 + count < buffer.Length then base + old(offset) + 32 else NULL
      ensures !ok ==> blocks == old(blocks) && ret == NULL
      ensures ok && ptr != NULL ==>
          exists i :: ReallocatedBy(old(blocks), OffsetOf(ptr), i, count, ret) && Granted(old(blocks), i, count, ret)
      ensures ret != NULL ==> ret >= base && KeptFrom(ret - base)
    {
      hide Valid, Wrap, InPayload;
      if ptr != NULL {
        var ptrOffset := Wrap(ptr - base);
        if ptrOffset < buffer.Length {
          ghost var i :| Names(blocks, ptrOffset, i);
          SizesFit();
          ret := ReallocChecked(ptrOffset, count, i);
          assert ReallocatedBy(old(blocks), OffsetOf(ptr), i, count, ret);
          ResultIsGranted(old(blocks), OffsetOf(ptr), i, count, ret);
          return true, ret;
        }
        return false, NULL;
      }
      ret := Alloc(count);
      ok := true;
    }

    /** The call moved from the blocks bs to the current ones by a realloc of block i. */
    ghost predicate ReallocatedBy(bs: Blocks, payload: nat, i: int, count: nat, ret: nat)
      reads this
    {
      && Names(bs, payload, i)
      && blocks == AfterRealloc(bs, i, count, buffer.Length)
      && ret == PointerTo(ReallocResult(bs, i, count, buffer.Length))
    }

    /** The pointer that a realloc of block i returns, in plain numbers, and the live payload behind it. */
    ghost predicate Granted(bs: Blocks, i: int, count: nat, ret: nat)
      requires LiveIndex(bs, i)
      reads this
    {
      var inPlace, behind := base + bs[i].off + 32, base + EndOf(bs) + 32;
      && ret == (if count == 0 then NULL
                 else if count == bs[i].count then inPlace
                 else if i == |bs| - 1 then (if inPlace - base + count < buffer.Length then inPlace else NULL)
                 else (if behind - base + count < buffer.Length then behind else NULL))
      && (ret != NULL ==> IsLive(blocks, ret - base, count))
    }

    lemma ResultIsGranted(bs: Blocks, payload: nat, i: int, count: nat, ret: nat)
      requires base > 0 && WellSized(bs, buffer.Length) && ReallocatedBy(bs, payload, i, count, ret)
      ensures Granted(bs, i, count, ret)
    {
      if count != 0 {
        ReallocGrants(bs, i, count, buffer.Length);
      }
    }

    function PointerTo(payload: int): nat {
      if payload < 0 then NULL else base + payload
    }

    method ReallocChecked(ptrOffset: nat, count: nat, ghost i: nat) returns (ret: nat)
      requires Valid() && Names(blocks, ptrOffset, i) && ReallocHonest(blocks, i, count, buffer.Length)
      modifies this, buffer
      ensures Valid() && blocks == old(AfterRealloc(blocks, i, count, buffer.Length))
      ensures ret == PointerTo(ReallocResult(old(blocks), i, count, buffer.Length))
      ensures Granted(old(blocks), i, count, ret)
      ensures PayloadsKept(old(blocks))
      ensures ret != NULL ==> ret >= base && KeptFrom(ret - base)
    {
      hide Valid, Wrap, InPayload, Word;
      ghost var bs := blocks;
      if count == 0 {
        DeallocCheckedMemory(ptrOffset, i);
        return NULL;
      }
      ReadsHeader(i);
      UsedPart();
      LastByEndHere(i);
      var oldCount := Word(buffer[..], ptrOffset - HEADER);
      SizesFit();
      if count == oldCount {
        ret := base + ptrOffset;
        ResultIsGranted(bs, ptrOffset, i, count, ret);
        return;
      }
      var offsetAfterAlloc := ptrOffset + oldCount;
      if offsetAfterAlloc == offset {
        var newOffset := Wrap(offsetAfterAlloc + count - oldCount);
        GrowthDecides(blocks, count);
        if newOffset < buffer.Length {
          ResizeLast(ptrOffset, count);
          ret := base + ptrOffset;
          ResultIsGranted(bs, ptrOffset, i, count, ret);
          return;
        }
        return NULL;
      }
      SamePayloads(bs, i);
      MarkedEnd(bs, i);
      DeallocCheckedMemory(ptrOffset, i);
      UsedPart();
      ret := Alloc(count);
    }

    lemma MarkedEnd(bs: Blocks, i: nat)
      requires i < |bs| - 1
      ensures EndOf(AfterFree(bs, i)) == EndOf(bs)
    {
    }

    lemma GrowthDecides(bs: Blocks, count: nat)
      requires Valid() && bs == blocks != [] && count != 0 && count != bs[|bs| - 1].count
      requires ReallocHonest(bs, |bs| - 1, count, buffer.Length)
      ensures Wrap(bs[|bs| - 1].Payload() + count) < buffer.Length <==> bs[|bs| - 1].Payload() + count < buffer.Length
    {
      hide Valid;
      SizesFit();
      if GrowGuard(bs[|bs| - 1].Payload(), count, buffer.Length) {
        GrowGuardExact(bs, count, buffer.Length);
      }
    }

    lemma SizesFit()
      requires Valid()
      ensures EndOf(blocks) < buffer.Length < WORD_LIMIT && WellSized(blocks, buffer.Length) && base > 0
    {
    }

    lemma SamePayloads(bs: Blocks, i: nat)
      requires i < |bs| - 1
      ensures forall p: nat :: InPayload(bs, p) ==> InPayload(AfterFree(bs, i), p)
    {
      var r := AfterFree(bs, i);
      forall p: nat | InPayload(bs, p) ensures InPayload(r, p) {
        var k :| 0 <= k < |bs| && bs[k].Payload() <= p < bs[k].End();
        assert r[k].Payload() <= p < r[k].End();
      }
    }

    lemma LastByEndHere(i: nat)
      requires Valid() && i < |blocks|
      ensures blocks[i].End() == offset <==> i == |blocks| - 1
      ensures i < |blocks| - 1 ==> EndOf(AfterFree(blocks, i)) <= offset
    {
      LastByEnd(blocks, i);
    }

    method ResizeLast(ptrOffset: nat, count: nat)
      requires Valid() && Names(blocks, ptrOffset, |blocks| - 1)
      requires 0 < count && ptrOffset + count < buffer.Length
      modifies this, buffer
      ensures Valid() && blocks == old(Resized(blocks, |blocks| - 1, count))
      ensures PayloadsKept(old(blocks)) && KeptFrom(ptrOffset)
    {
      hide Word, SameOutside, InPayload;
      ghost var b0 := buffer[..];
      offset := ptrOffset + count;
      WriteWord(buffer, ptrOffset - HEADER, count);
      StoredAfterResize(b0, buffer[..], base, blocks, count);
      HeaderWriteKeepsPayloads(b0, buffer[..], blocks, |blocks| - 1, 0);
      blocks := Resized(blocks, |blocks| - 1, count);
    }
  }

  // ---- what a realloc does to the caller's bytes ----------------------------------------------------

  /** The n bytes at `from` before a call are the n bytes at `to` after it. */
  ghost predicate BytesMoved(before: seq<Byte>, after: seq<Byte>, from: nat, to: nat, n: nat) {
    from + n <= |before| && to + n <= |after| && after[to..to + n] == before[from..from + n]
  }

  /** What Realloc promises of the buffer when it answers with the payload at `to`. */
  ghost predicate LeftFrom(before: seq<Byte>, after: seq<Byte>, to: nat) {
    |after| == |before| && forall p: nat :: to <= p < |before| ==> after[p] == before[p]
  }

  /** Where the payload that a realloc answers with lies. */
  lemma ResultPlace(blocks: Blocks, i: nat, count: nat, size: nat)
    requires WellSized(blocks, size) && i < |blocks| && ReallocResult(blocks, i, count, size) >= 0
    ensures count > 0 && Adjacent(blocks) && blocks[i].End() <= EndOf(blocks) < size
    ensures
      var to := ReallocResult(blocks, i, count, size);
      && to + count <= size
      && to == if count == blocks[i].count || i == |blocks| - 1 then blocks[i].Payload() else EndOf(blocks) + HEADER
  {
    BelowEnd(blocks, i);
  }

  lemma MovedBytesDiffer(b0: seq<Byte>, base: nat, blocks: Blocks, from: nat, to: nat, n: nat)
    requires Adjacent(blocks) && Stored(b0, base, blocks) && InPayload(blocks, from)
    requires from < to && 0 < n && to + n <= |b0|
    ensures exists b :: |b| == |b0| && Stored(b, base, blocks) && LeftFrom(b, b, to) && !BytesMoved(b, b, from, to, n)
  {
    hide Stored;
    var v: Byte := if b0[to] == 0 then 1 else 0;
    var b := b0[from := v];
    ClientWriteKeepsHeaders(b0, base, blocks, from, v);
    assert b[to..to + n][0] == b0[to] && b[from..from + n][0] == v;
    assert LeftFrom(b, b, to) && !BytesMoved(b, b, from, to, n);
  }

  /** A realloc that answers with a payload keeps the first min(old, new) bytes, whatever the buffer holds,
      if and only if the block stays in place, because it has that size already or is the last one, or
      there is no byte to keep. */
  lemma ReallocKeepsBytesIff(b0: seq<Byte>, base: nat, blocks: Blocks, i: nat, count: nat)
    requires WellSized(blocks, |b0|) && Stored(b0, base, blocks) && LiveIndex(blocks, i)
    requires ReallocResult(blocks, i, count, |b0|) >= 0
    ensures
      var from, to := blocks[i].Payload(), ReallocResult(blocks, i, count, |b0|);
      var n := if count < blocks[i].count then count else blocks[i].count;
      (forall b, after :: |b| == |b0| && Stored(b, base, blocks) && LeftFrom(b, after, to) ==>
          BytesMoved(b, after, from, to, n))
        <==> blocks[i].count == 0 || count == blocks[i].count || i == |blocks| - 1
  {
    hide Stored, WellSized, ReallocResult;
    var from, to := blocks[i].Payload(), ReallocResult(blocks, i, count, |b0|);
    var n := if count < blocks[i].count then count else blocks[i].count;
    ResultPlace(blocks, i, count, |b0|);
    if n > 0 && to != from {
      InPlacePayload(blocks, i, from);
      MovedBytesDiffer(b0, base, blocks, from, to, n);
    }
  }

  lemma InPlacePayload(blocks: Blocks, i: nat, p: nat)
    requires i < |blocks| && blocks[i].count > 0 && p == blocks[i].Payload()
    ensures InPayload(blocks, p)
  {
    assert blocks[i].Payload() <= p < blocks[i].End();
  }

  method TwoBlocks() returns (pool: MemoryPoolBase)
    ensures fresh(pool) && fresh(pool.buffer) && pool.Valid() && pool.base == 4096 && pool.buffer.Length == 4096
    ensures pool.blocks == [Block(0, 8, true), Block(40, 8, true)]
    ensures pool.buffer[112] == 0
  {
    hide Word, Stored, InPayload;
    var buffer := new Byte[4096](_ => 0);
    pool := new MemoryPoolBase(4096, buffer);
    var _ := pool.Alloc(8);
    var _ := pool.Alloc(8);
  }

  /** A client writes one byte of its payload. */
  method ClientWrites(pool: MemoryPoolBase, p: nat, v: Byte)
    requires pool.Valid() && p < pool.buffer.Length && InPayload(pool.blocks, p)
    modifies pool.buffer
    ensures pool.Valid() && pool.buffer[..] == old(pool.buffer[..])[p := v]
  {
    hide Stored, InPayload;
    ClientWriteKeepsHeaders(pool.buffer[..], pool.base, pool.blocks, p, v);
    ghost var before := pool.buffer[..];
    pool.buffer[p] := v;
    assert pool.buffer[..] == before[p := v];
  }

  /** Two blocks of 8 bytes in a zeroed pool, a 7 in the first one, which then grows to 16 bytes: the
      realloc succeeds, and the first byte of its answer is not the 7. */
  method MovedBlockLosesItsByte() returns (pool: MemoryPoolBase, ptr: nat)
    ensures fresh(pool) && fresh(pool.buffer) && pool.Valid() && pool.base == 4096 && pool.buffer.Length == 4096
    ensures ptr == pool.base + 112 && IsLive(pool.blocks, 112, 16)
    ensures pool.buffer[32] == 7 && pool.buffer[112] == 0
  {
    hide MemoryPoolBase.Valid, InPayload;
    pool := TwoBlocks();
    InPlacePayload(pool.blocks, 0, 32);
    ClientWrites(pool, 32, 7);
    assert pool.buffer[..][32] == 7 && pool.buffer[..][112] == 0;
    assert Names(pool.blocks, 32, 0);
    var ok;
    ok, ptr := pool.Realloc(4096 + 32, 16);
    assert pool.blocks == [Block(0, 8, false), Block(40, 8, true), Block(80, 16, true)];
    assert pool.blocks[2].Payload() == 112;
  }
}
