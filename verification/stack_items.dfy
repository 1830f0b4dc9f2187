/** m_stackItems: the counts of live allocations, kept in the hash table itself, with line 84 as written
    or repaired. */
module StackItems {
  import opened Words
  import opened Stacks
  import opened HashLinks
  import opened HashItems
  import opened TrackerSpec

  type StackTable = HashItemsByPtr<Stack, nat>
  type StackItem = HashLinks.Item<Stack, nat>

  /** What HashOfTheStack computes. */
  function StackHash(stack: Stack): nat {
    Wrap(WeightedSum(stack, 0))
  }

  ghost predicate Hashed(table: StackTable) {
    forall stack :: table.hash(stack) == StackHash(stack)
  }

  /** The table is in order: well formed if line 84 is repaired, built as written otherwise. */
  ghost predicate InOrder(table: StackTable, repaired: bool)
    reads table, table.items, table.nodes
  {
    if repaired then table.Valid() else table.AsWritten()
  }

  /** Lines 167-176: the count of one more allocation, and whether it exceeds the limit. */
  method CountStack(table: StackTable, stack: Stack, limit: nat, repaired: bool) returns (leak: bool)
    requires InOrder(table, repaired)
    modifies table, table.items, table.nodes
    ensures InOrder(table, repaired) && fresh(table.nodes - old(table.nodes))
    ensures table.view.contents == old(table.view.contents)[stack := Raised(old(table.view.contents), stack, limit)]
    ensures leak == (stack in old(table.view.contents) && limit > 0 && table.view.contents[stack] > limit)
    ensures stack !in old(table.view.contents) ==>
      table.view.list != [] && table.view.list[1..] == old(table.view.list) && table.view.list[0].first == stack
  {
    hide HashItemsByPtr.Valid, HashItemsByPtr.AsWritten, HashItemsByPtr.ForwardOk;
    InOrderForward(table, repaired);
    var item, index := table.Lookup(stack);
    leak := false;
    if item == null {
      if repaired {
        table.AddEntryRepaired(stack, index, 1);
      } else {
        table.AddEntryWithKnownHash(stack, index, 1);
      }
    } else if limit > 0 {
      table.SetValue(item, item.second + 1);
      leak := item.second > limit;
    }
  }

  lemma InOrderForward(table: StackTable, repaired: bool)
    requires InOrder(table, repaired)
    ensures table.ForwardOk()
    ensures forall x :: x in table.view.list ==> x in table.nodes
  {
    hide ChainsOk, ListOk, Bucketed, Keyed, Spells, BackOk, BackAsWritten;
    assert table.Memory().data.Keys == table.nodes;
  }

  /** If taking the stack out once removes its item, that item is SafeToRemove. */
  ghost predicate SafeToTakeOut(table: StackTable, stack: Stack)
    reads table, table.items, table.nodes
  {
    stack in table.view.contents && table.view.contents[stack] == 1 ==>
      forall x :: x in table.view.list && x.first == stack ==>
        x in table.Memory().nextL && SafeToRemove(table.Memory(), x)
  }

  /** The test itself, which a caller can make before the call. */
  method TestSafeToTakeOut(table: StackTable, stack: Stack) returns (safe: bool)
    requires table.AsWritten()
    ensures safe == SafeToTakeOut(table, stack)
  {
    hide Core, BackAsWritten, ChainsOk, OnChain;
    InOrderForward(table, false);
    var item, _ := table.Lookup(stack);
    if item == null || item.second != 1 {
      return true;
    }
    OnlyItem(table.Memory(), table.view, item, table.hash);
    return table.firstItem == item && (item.nextInTheList == null || item.nextInTheList.unIndex == item.unIndex);
  }

  lemma OnlyItem(t: Links<Stack, nat>, v: View<Stack, nat>, x: StackItem, hash: Stack -> nat)
    requires Core(t, v, hash) && x in v.list
    ensures forall y :: y in v.list && y.first == x.first ==> y == x
    ensures x in t.nextL
  {
    hide ChainsOk, ListOk, Bucketed, Spells, Injective;
  }

  /** Lines 243-245: the decrement inside the assertion, and the removal of a count that reaches 0. In the
      table as written the removal may lose other stacks, and may leave links to the freed item: exactly
      unless the removed item is Harmless, or SafeToRemove. */
  method TakeOutOfStack(table: StackTable, stack: Stack, repaired: bool)
      returns (ok: bool, ghost removed: HashLinks.Item?<Stack, nat>)
    requires InOrder(table, repaired)
    modifies table, table.items, table.nodes
    ensures ok == (CountOf(old(table.view.contents), stack) != 0)
    ensures !ok ==> table.view == old(table.view) && InOrder(table, repaired)
    ensures ok ==> table.view.contents == Lowered(old(table.view.contents), stack)
    ensures table.nodes <= old(table.nodes)
    ensures removed != null <==> ok && old(table.view.contents)[stack] == 1
    ensures repaired || removed == null ==> InOrder(table, repaired)
    ensures removed != null ==>
        removed in old(table.view.list) && removed.first == stack && table.Shape(old(table.Memory()), removed)
    ensures removed != null ==> table.Memory() == Unlink(old(table.Memory()), removed).(data := table.Memory().data)
    ensures removed != null && !repaired ==>
      && ChainsOk(table.Memory(), table.view)
      && (FindsExactly(table.view, table.hash) <==> Harmless(old(table.Memory()), removed))
      && (table.AsWritten() <==> SafeToRemove(old(table.Memory()), removed))
    ensures old(SafeToTakeOut(table, stack)) ==> InOrder(table, repaired)
  {
    hide HashItemsByPtr.Valid, HashItemsByPtr.AsWritten, HashItemsByPtr.ForwardOk, HashItemsByPtr.Memory;
    hide ChainsOk, FindsExactly, Harmless, SafeToRemove, Dangling, Unlink, Rejoined, Cut;
    InOrderForward(table, repaired);
    ghost var t := table.Memory();
    removed := null;
    var item, _ := table.Lookup(stack);
    if item == null || item.second == 0 {
      return false, null;
    }
    table.SetValue(item, item.second - 1);
    if item.second == 0 {
      ghost var u := table.Memory();
      TestsIgnoreData(t, u, item);
      removed := item;
      table.RemoveEntry(item);
      UnlinkIgnoresData(t, u, item);
    }
    return true, removed;
  }

  lemma TestsIgnoreData(t: Links<Stack, nat>, u: Links<Stack, nat>, x: StackItem)
    requires u == t.(data := u.data)
    ensures x in t.prev ==> (Harmless(t, x) <==> Harmless(u, x))
    ensures x in t.nextL ==> (SafeToRemove(t, x) <==> SafeToRemove(u, x))
  {
  }

  lemma UnlinkIgnoresData(t: Links<Stack, nat>, u: Links<Stack, nat>, x: StackItem)
    requires u == t.(data := u.data)
    requires x.unIndex < |t.heads| && x in t.next && x in t.prev && x in t.nextL && x in t.prevL
    ensures Unlink(u, x) == Unlink(t, x).(data := Unlink(u, x).data)
  {
  }

  // ---- line 84 and the tracker -----------------------------------------------------------------------

  /** FindEntry will meet the stack of every live entry, so that the assertion of the next delete holds. */
  ghost predicate AllStacksFound(items: Items, v: View<Stack, nat>, hash: Stack -> nat)
    requires |v.chains| == HASH_SIZE
  {
    forall a :: IsLive(items, a) ==> OnChain(v, items[a].allocTrace, hash)
  }

  /** With counts that are right, every live entry's stack is found exactly if lookups answer as the map. */
  lemma FoundIffExact(s: State, v: View<Stack, nat>, hash: Stack -> nat)
    requires |v.chains| == HASH_SIZE && Conserved(s) && s.counts == v.contents
    requires forall k :: OnChain(v, k, hash) ==> k in v.contents
    ensures AllStacksFound(s.items, v, hash) <==> FindsExactly(v, hash)
  {
    hide OnChain;
    if AllStacksFound(s.items, v, hash) {
      forall k | k in v.contents
        ensures OnChain(v, k, hash)
      {
        assert CountOf(s.counts, k) == |Live(s.items, k)|;
        var a :| a in Live(s.items, k);
        assert IsLive(s.items, a);
      }
    }
    if FindsExactly(v, hash) {
      forall a | IsLive(s.items, a)
        ensures OnChain(v, s.items[a].allocTrace, hash)
      {
        assert a in Live(s.items, s.items[a].allocTrace);
        assert CountOf(s.counts, s.items[a].allocTrace) == |Live(s.items, s.items[a].allocTrace)|;
      }
    }
  }

  /** The last live allocation of a stack is released while the stack table is one built as written:
      afterwards the stack of every live entry is found if and only if the removed item was Harmless. */
  lemma StacksFoundIff(s: State, ptr: Address, trace: Option<Stack>, t: Links<Stack, nat>, v: View<Stack, nat>,
      x: StackItem, i: nat, j: nat, hash: Stack -> nat)
    requires Conserved(s) && IsLive(s.items, ptr) && s.counts == v.contents
    requires Core(t, v, hash) && BackAsWritten(t, v) && Located(t, v, x, i, j)
    requires x.first == s.items[ptr].allocTrace && CountOf(s.counts, x.first) == 1
    ensures ChainsOk(Unlink(t, x), Rejoined(v, x, i, j)) && |Rejoined(v, x, i, j).chains| == HASH_SIZE
    ensures var items := s.items[ptr := s.items[ptr].(status := Deallocated, deallocTrace := trace)];
      AllStacksFound(items, Rejoined(v, x, i, j), hash) <==> Harmless(t, x)
  {
    hide Core, BackAsWritten, Rejoined, Harmless, Conserved, AllStacksFound, FindsExactly, ChainsOk, Unlink;
    var r := Rejoined(v, x, i, j);
    WrittenRemoveChains(t, v, x, i, j, hash);
    RejoinedFindsIff(t, v, x, i, j, hash);
    RejoinedKeys(t, v, x, i, j, hash);
    ReleaseConserves(s, ptr, trace);
    var after := s.(counts := Lowered(s.counts, x.first),
        items := s.items[ptr := s.items[ptr].(status := Deallocated, deallocTrace := trace)]);
    assert after.counts == r.contents;
    FoundIffExact(after, r, hash);
  }

  lemma RejoinedKeys(t: Links<Stack, nat>, v: View<Stack, nat>, x: StackItem, i: nat, j: nat, hash: Stack -> nat)
    requires Core(t, v, hash) && BackAsWritten(t, v) && Located(t, v, x, i, j)
    ensures |Rejoined(v, x, i, j).chains| == HASH_SIZE && Rejoined(v, x, i, j).contents == v.contents - {x.first}
    ensures forall k :: OnChain(Rejoined(v, x, i, j), k, hash) ==> k in Rejoined(v, x, i, j).contents
  {
    hide Core, BackAsWritten, Rejoined, Harmless, Cut, Unlink, Bucketed, Keyed, HashLinks.Allocated;
    RejoinedMembers(t, v, x, i, j, hash);
    RemoveKeepsMap(t, v, x, i, j, hash);
  }

  /** The table of three stacks after the second one was removed as written: bucket 0 has lost the
      successor of its first item. */
  lemma SuccessorLost(t: Links<Stack, nat>, v: View<Stack, nat>, u: Links<Stack, nat>, after: View<Stack, nat>,
      hash: Stack -> nat, c: StackItem, x: StackItem, a: StackItem)
    requires Core(t, v, hash) && BackAsWritten(t, v) && v.list == [c, x, a]
    requires hash(c.first) == 4096 && hash(x.first) == 1 && hash(a.first) == 0
    requires x.unIndex < |t.heads| && x in t.next && x in t.prev && x in t.nextL && x in t.prevL
    requires u == Unlink(t, x).(data := u.data) && ChainsOk(u, after)
    ensures !OnChain(after, a.first, hash)
  {
    hide Core, BackAsWritten, Injective, Walks, Rejoined, Unlink;
    ThreeKeys(t, v, hash, c, x, a);
    LostFromBucket0(v, c, x, a);
    WrittenRemoveChains(t, v, x, 0, 1, hash);
    WalkUnique(u.heads[0], u.next, after.chains[0], Rejoined(v, x, 0, 1).chains[0]);
  }

  lemma SingleFrameHash(f: Frame)
    ensures StackHash([f]) == f
  {
    assert Power(1000, 0) == 1;
    assert WeightedSum([f], 0) == f + WeightedSum([], 1);
  }

  /** Three stacks whose first frames are 0, 1 and 4096, each with one live allocation. */
  method BuildThreeStacks(limit: nat)
      returns (table: StackTable, ghost c: StackItem, ghost x: StackItem, ghost a: StackItem)
    ensures fresh(table) && fresh(table.items) && fresh(table.nodes)
    ensures table.AsWritten() && Hashed(table)
    ensures table.view.list == [c, x, a] && c.first == [4096] && x.first == [1] && a.first == [0]
    ensures table.view.contents == map[[0] := 1, [1] := 1, [4096] := 1]
  {
    hide HashItemsByPtr.Valid, HashItemsByPtr.AsWritten, HashItemsByPtr.ForwardOk, HashItemsByPtr.Memory;
    table := new HashItemsByPtr<Stack, nat>(StackHash);
    var _ := CountStack(table, [0], limit, false);
    a := table.view.list[0];
    var _ := CountStack(table, [1], limit, false);
    x := table.view.list[0];
    var _ := CountStack(table, [4096], limit, false);
    c := table.view.list[0];
  }

  const FIRST: Call := Alloc(8, New, [0], 100)
  const SECOND: Call := Alloc(8, New, [1], 200)
  const THIRD: Call := Alloc(8, New, [4096], 300)
  const FOURTH: Call := Delete(200, New, [0], false)
  const FIFTH: Call := Delete(100, New, [0], false)

  /** With the counts in a map the five calls are a legal run without any failure. */
  lemma FiveCalls(settings: Settings)
    requires settings.limit > 0
    ensures
      var s := Run([FIRST, SECOND, THIRD, FOURTH], settings).state;
      && s.counts == map[[0] := 1, [4096] := 1] && IsLive(s.items, 100) && s.items[100].allocTrace == [0]
      && Legal([FIRST, SECOND, THIRD, FOURTH, FIFTH], settings)
      && Run([FIRST, SECOND, THIRD, FOURTH, FIFTH], settings).state.process == Running
  {
    var one := [] + [FIRST];
    var two := one + [SECOND];
    var three := two + [THIRD];
    var four := three + [FOURTH];
    RunExtends([], FIRST, settings);
    RunExtends(one, SECOND, settings);
    RunExtends(two, THIRD, settings);
    var s := Run(three, settings).state;
    assert s.counts == map[[0] := 1, [1] := 1, [4096] := 1] && s.process == Running;
    RunExtends(three, FOURTH, settings);
    RunExtends(four, FIFTH, settings);
    assert four == [FIRST, SECOND, THIRD, FOURTH] && four + [FIFTH] == [FIRST, SECOND, THIRD, FOURTH, FIFTH];
  }

  /** The condition that line 244 asserts, on a table of which only the chains are known. */
  method StackIsCounted(table: StackTable, stack: Stack) returns (holds: bool)
    requires ChainsOk(table.Memory(), table.view)
    ensures holds ==> OnChain(table.view, stack, table.hash)
  {
    var item, _ := table.FindEntry(stack);
    return item != null && item.second != 0;
  }

  /** With the counts in the table as written, the assertion of the fifth call fails: the delete of the
      second block took the stack of the first one out of its bucket. */
  method Line84FailsTheAssertion(settings: Settings) returns (holds: bool)
    requires settings.limit > 0
    ensures
      && Legal([FIRST, SECOND, THIRD, FOURTH, FIFTH], settings)
      && Run([FIRST, SECOND, THIRD, FOURTH, FIFTH], settings).state.process == Running
    ensures !holds
  {
    hide HashItemsByPtr.Valid, HashItemsByPtr.Memory, ChainsOk, OnChain, FindsExactly, Harmless, SafeToRemove, Unlink;
    hide Core, BackAsWritten, Run, Legal;
    FiveCalls(settings);
    var table, c, x, a := BuildThreeStacks(settings.limit);
    assert table.view.contents == map[[0] := 1, [1] := 1, [4096] := 1];
    SingleFrameHash(0);
    SingleFrameHash(1);
    SingleFrameHash(4096);
    ghost var t, v := table.Memory(), table.view;
    var ok, removed := TakeOutOfStack(table, [1], false);
    assert removed == x;
    assert table.view.contents == Run([FIRST, SECOND, THIRD, FOURTH], settings).state.counts;
    SuccessorLost(t, v, table.Memory(), table.view, table.hash, c, x, a);
    holds := StackIsCounted(table, [0]);
  }
}
