/** The alignment arithmetic of the aligned operator new, and the placement done by std::align. */
module AlignedNew {
  import opened Words

  /** __STDCPP_DEFAULT_NEW_ALIGNMENT__ on a 64-bit target. */
  const DEFAULT_ALIGNMENT: bv64 := 16

  /** The smeared word: every bit below the highest set bit becomes set. */
  function Smear(x: bv64): bv64 {
    var a := x | (x >> 1);
    var b := a | (a >> 2);
    var c := b | (b >> 4);
    var d := c | (c >> 8);
    var e := d | (d >> 16);
    e | (e >> 32)
  }

  function Decrement(x: bv64): bv64 {
    x - 1
  }

  function Increment(x: bv64): bv64 {
    x + 1
  }

  /** The alignment that operator new ends up with. */
  function FinalAlignment(requested: bv64): bv64 {
    if requested < DEFAULT_ALIGNMENT then DEFAULT_ALIGNMENT else Increment(Smear(Decrement(requested)))
  }

  predicate IsPowerOfTwo(x: bv64) {
    x != 0 && x & (x - 1) == 0
  }

  const TOP: bv64 := 0x8000_0000_0000_0000

  lemma SmearCovers(x: bv64)
    ensures Smear(x) >= x
  {
  }

  lemma SmearIsMask(x: bv64)
    ensures IsMask(Smear(x))
  {
  }

  lemma SmearKeepsTopBit(x: bv64)
    requires x != 0
    ensures Smear(x) >> 1 < x
  {
  }

  /** A word whose set bits are exactly the lowest ones. */
  predicate IsMask(m: bv64) {
    m & (m + 1) == 0
  }

  /** `mask` is the least mask that is at least `x`. */
  predicate Tight(x: bv64, mask: bv64) {
    IsMask(mask) && x <= mask && mask >> 1 < x
  }

  lemma SmearIsTight(x: bv64)
    requires x != 0
    ensures Tight(x, Smear(x))
  {
    hide Smear, IsMask;
    SmearCovers(x);
    SmearIsMask(x);
    SmearKeepsTopBit(x);
  }

  /** The order on words, to be hidden where only its instances matter. */
  predicate AtMost(a: bv64, b: bv64) {
    a <= b
  }

  predicate Roundable(requested: bv64) {
    DEFAULT_ALIGNMENT <= requested <= TOP
  }

  lemma TightPower(requested: bv64, mask: bv64)
    requires Roundable(requested) && Tight(Decrement(requested), mask)
    ensures IsPowerOfTwo(Increment(mask))
  {
  }

  lemma TightReaches(requested: bv64, mask: bv64)
    requires Roundable(requested) && Tight(Decrement(requested), mask)
    ensures AtMost(requested, Increment(mask))
  {
  }

  lemma TightReachesDefault(requested: bv64, mask: bv64)
    requires Roundable(requested) && Tight(Decrement(requested), mask)
    ensures AtMost(DEFAULT_ALIGNMENT, Increment(mask))
  {
  }

  lemma TightIsLeast(requested: bv64, mask: bv64, other: bv64)
    requires Roundable(requested) && Tight(Decrement(requested), mask)
    requires IsPowerOfTwo(other) && AtMost(requested, other)
    ensures AtMost(Increment(mask), other)
  {
  }

  lemma PredecessorNonZero(requested: bv64)
    requires Roundable(requested)
    ensures Decrement(requested) != 0
  {
  }

  lemma RoundedIsPower(requested: bv64)
    requires Roundable(requested)
    ensures IsPowerOfTwo(Increment(Smear(Decrement(requested))))
    ensures AtMost(requested, Increment(Smear(Decrement(requested))))
    ensures AtMost(DEFAULT_ALIGNMENT, Increment(Smear(Decrement(requested))))
  {
    hide Smear, Tight, Increment, Decrement, IsPowerOfTwo, AtMost, Roundable;
    PredecessorNonZero(requested);
    SmearIsTight(Decrement(requested));
    TightPower(requested, Smear(Decrement(requested)));
    TightReaches(requested, Smear(Decrement(requested)));
    TightReachesDefault(requested, Smear(Decrement(requested)));
  }

  lemma RoundedIsLeast(requested: bv64, other: bv64)
    requires Roundable(requested) && IsPowerOfTwo(other) && AtMost(requested, other)
    ensures AtMost(Increment(Smear(Decrement(requested))), other)
  {
    hide Smear, Tight, Increment, Decrement, IsPowerOfTwo, AtMost, Roundable;
    PredecessorNonZero(requested);
    SmearIsTight(Decrement(requested));
    TightIsLeast(requested, Smear(Decrement(requested)), other);
  }

  lemma SmallFinal(requested: bv64, other: bv64)
    requires requested < DEFAULT_ALIGNMENT
    ensures LeastPower(requested, FinalAlignment(requested), other)
  {
    hide Smear;
  }

  /** `final` is a power of two, at least the request and the default, and no power of two `other` that
      is so as well is below it. */
  predicate LeastPower(requested: bv64, final: bv64, other: bv64) {
    && IsPowerOfTwo(final) && AtMost(requested, final) && AtMost(DEFAULT_ALIGNMENT, final)
    && (IsPowerOfTwo(other) && AtMost(requested, other) && AtMost(DEFAULT_ALIGNMENT, other) ==> AtMost(final, other))
  }

  /** For every request up to 2^63 the result is the least power of two that is at least the request
      and at least the default. */
  lemma LeastPowerOfTwo(requested: bv64, other: bv64)
    requires requested <= TOP
    ensures LeastPower(requested, FinalAlignment(requested), other)
  {
    if requested < DEFAULT_ALIGNMENT {
      SmallFinal(requested, other);
    } else {
      assert Roundable(requested);
      hide Smear, Increment, Decrement, IsPowerOfTwo, AtMost, Roundable;
      RoundedIsPower(requested);
      if IsPowerOfTwo(other) && AtMost(requested, other) {
        RoundedIsLeast(requested, other);
      }
    }
  }

  /** Beyond 2^63 the rounding wraps to zero, and only there. */
  lemma ZeroExactlyBeyondTop(requested: bv64)
    ensures FinalAlignment(requested) == 0 <==> requested > TOP
  {
    hide Smear;
    if requested <= TOP {
      LeastPowerOfTwo(requested, TOP);
    } else {
      SmearCovers(Decrement(requested));
      SmearIsMask(Decrement(requested));
      BeyondTop(Smear(Decrement(requested)));
    }
  }

  lemma BeyondTop(mask: bv64)
    requires mask >= TOP && IsMask(mask)
    ensures Increment(mask) == 0
  {
  }

  // ---- placement --------------------------------------------------------------------------------

  const VOID_PTR_SIZE: nat := 8

  datatype Placement = NoRoom | Placed(at: nat)

  /** std::align, as [ptr.align] of ISO/IEC 14882:2017 specifies it: the first multiple of `align` at or
      after `ptr`, provided that `size` bytes fit behind it into the `space` bytes at `ptr`. */
  function StdAlign(align: nat, size: nat, ptr: nat, space: nat): Placement
    requires align > 0
  {
    var at := (ptr + align - 1) / align * align;
    if size + (at - ptr) <= space then Placed(at) else NoRoom
  }

  /** The number of bytes requested from the raw allocator, as size_t computes it. */
  function Allocating(count: nat, align: nat): nat {
    Wrap(count + align + VOID_PTR_SIZE)
  }

  lemma RoundUp(ptr: nat, align: nat)
    requires align > 0
    ensures var at := (ptr + align - 1) / align * align; ptr <= at < ptr + align && at % align == 0
    ensures ptr % align == 0 <==> (ptr + align - 1) / align * align == ptr
  {
    var q, r := ptr / align, ptr % align;
    assert ptr == q * align + r;
    if r == 0 {
      DivUnique(ptr + align - 1, align, q, align - 1);
      assert q * align % align == 0 by { MulMod(q, align); }
    } else {
      assert ptr + align - 1 == (q + 1) * align + (r - 1);
      DivUnique(ptr + align - 1, align, q + 1, r - 1);
      MulMod(q + 1, align);
      assert (q + 1) * align != ptr;
    }
  }

  lemma DivUnique(x: nat, d: nat, q: nat, r: nat)
    requires d > 0 && x == q * d + r && r < d
    ensures x / d == q && x % d == r
  {
    var q' := x / d;
    assert x == q' * d + x % d;
    if q' < q { MulGap(q', q, d); }
    if q < q' { MulGap(q, q', d); }
  }

  lemma MulGap(a: nat, b: nat, d: nat)
    requires a < b
    ensures a * d + d <= b * d
  {
    assert (a + 1) * d == a * d + d;
  }

  lemma MulMod(q: nat, d: nat)
    requires d > 0
    ensures q * d % d == 0
  {
    DivUnique(q * d, d, q, 0);
  }

  /** Alignment succeeds for every raw address if and only if the size sum did not wrap around; then the
      returned address is aligned and `count` bytes behind it lie inside the raw block. */
  lemma AlignSucceedsIff(count: nat, align: nat, raw: nat)
    requires 0 < align && align + VOID_PTR_SIZE < WORD_LIMIT && count < WORD_LIMIT
    ensures StdAlign(align, count, raw, Allocating(count, align)).Placed? <==>
        count + align + VOID_PTR_SIZE < WORD_LIMIT
    ensures var r := StdAlign(align, count, raw, Allocating(count, align));
      r.Placed? ==> r.at % align == 0 && raw <= r.at && r.at + count <= raw + Allocating(count, align)
  {
    RoundUp(raw, align);
    var sum := count + align + VOID_PTR_SIZE;
    assert Allocating(count, align) == if sum < WORD_LIMIT then sum else sum - WORD_LIMIT;
    hide Allocating;
  }

  /** The tracker registers the raw address and returns the aligned one: a later delete presents the
      registered address if and only if the raw address happened to be aligned already. */
  lemma ReturnedIsRegisteredIff(count: nat, align: nat, raw: nat)
    requires 0 < align && count + align + VOID_PTR_SIZE < WORD_LIMIT
    ensures StdAlign(align, count, raw, Allocating(count, align)) == Placed(raw) <==> raw % align == 0
  {
    RoundUp(raw, align);
  }

  datatype Outcome = BadAlloc | Returned(registered: nat, handed: nat)

  /** The rounding loop, unrolled as in the source. */
  method RoundAlignment(requested: bv64) returns (align: bv64)
    ensures align == FinalAlignment(requested)
    ensures requested <= TOP ==> LeastPower(requested, align, requested)
  {
    if requested < DEFAULT_ALIGNMENT {
      align := DEFAULT_ALIGNMENT;
    } else {
      align := Decrement(requested);
      align := align | (align >> 1);
      align := align | (align >> 2);
      align := align | (align >> 4);
      align := align | (align >> 8);
      align := align | (align >> 16);
      align := align | (align >> 32);
      assert align == Smear(Decrement(requested));
      hide Smear;
      align := Increment(align);
    }
    hide *;
    if requested <= TOP { LeastPowerOfTwo(requested, requested); }
  }

  /** The rest of TestOperatorNewAligned, for the rounded alignment. `raw` is what mallocn returns for
      the size asked of it, 0 standing for null; BadAlloc stands for the exception and for the null of
      the nothrow form. The raw address is what the tracker registers. */
  method NewAligned(count: nat, align: nat, raw: nat) returns (asked: nat, outcome: Outcome)
    requires count < WORD_LIMIT && 0 < align && align + VOID_PTR_SIZE < WORD_LIMIT
    ensures count > 0 ==> asked == (count + align + 8) % 0x1_0000_0000_0000_0000
    ensures outcome == BadAlloc <==> count == 0 || raw == 0 || count + align + VOID_PTR_SIZE >= WORD_LIMIT
    ensures outcome.Returned? ==>
      && outcome.registered == raw
      && raw <= outcome.handed && outcome.handed + count <= raw + asked
      && outcome.handed % align == 0 && outcome.handed < raw + align
    ensures outcome.Returned? ==> (outcome.handed == outcome.registered <==> raw % align == 0)
  {
    if count == 0 {
      return 0, BadAlloc;
    }
    asked := Allocating(count, align);
    if raw == 0 {
      return asked, BadAlloc;
    }
    AlignSucceedsIff(count, align, raw);
    match StdAlign(align, count, raw, asked)
    case Placed(at) =>
      ReturnedIsRegisteredIff(count, align, raw);
      return asked, Returned(raw, at);
    case NoRoom =>
      return asked, BadAlloc;
  }
}
