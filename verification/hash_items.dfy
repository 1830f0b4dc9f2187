/** HashItemsByPtr: 4096 bucket chains and one global list, both doubly linked through the same items.

    Line 84 of the implementation writes `prev` of the old first item where `prevInTheList` is meant.
    Both forms of insertion are modelled. Removal is one body; its contract says what it does to a
    table built by either form. */
module HashItems {
  import opened HashLinks

  class HashItemsByPtr<K(==, !new), V> {
    const hash: K -> nat
    const items: array<Item?<K, V>>
    var firstItem: Item?<K, V>
    ghost var nodes: set<Item<K, V>>
    ghost var view: View<K, V>

    ghost function NextMap(): map<Item<K, V>, Item?<K, V>> reads this`nodes, nodes`next { map x | x in nodes :: x.next }
    ghost function PrevMap(): map<Item<K, V>, Item?<K, V>> reads this`nodes, nodes`prev { map x | x in nodes :: x.prev }
    ghost function NextLMap(): map<Item<K, V>, Item?<K, V>>
      reads this`nodes, nodes`nextInTheList
    {
      map x | x in nodes :: x.nextInTheList
    }

    ghost function PrevLMap(): map<Item<K, V>, Item?<K, V>>
      reads this`nodes, nodes`prevInTheList
    {
      map x | x in nodes :: x.prevInTheList
    }

    ghost function DataMap(): map<Item<K, V>, V> reads this`nodes, nodes`second { map x | x in nodes :: x.second }

    /** The links as they are in memory. */
    ghost function Memory(): Links<K, V>
      reads this`firstItem, this`nodes, items, nodes
    {
      Links(items[..], firstItem, NextMap(), PrevMap(), NextLMap(), PrevLMap(), DataMap())
    }

    ghost predicate ForwardOk()
      reads this, items, nodes
    {
      Core(Memory(), view, hash)
    }

    ghost predicate Valid()
      reads this, items, nodes
    {
      WellFormed(Memory(), view, hash)
    }

    /** Every insertion so far wrote line 84 as it stands, and every removal so far passed the test
        SafeToRemove: no live item links to a freed one. */
    ghost predicate AsWritten()
      reads this, items, nodes
    {
      ForwardOk() && BackAsWritten(Memory(), view)
    }

    constructor (hash: K -> nat)
      ensures this.hash == hash && fresh(items) && nodes == {}
      ensures Valid() && AsWritten() && view.contents == map[] && view.list == []
    {
      this.hash := hash;
      items := new Item?<K, V>[HASH_SIZE](_ => null);
      firstItem := null;
      nodes := {};
      view := View(seq(HASH_SIZE, _ => []), [], map[]);
    }

    method FindEntry(key: K) returns (item: Item?<K, V>, index: nat)
      requires ChainsOk(Memory(), view)
      ensures index == hash(key) % HASH_SIZE
      ensures item != null <==> OnChain(view, key, hash)
      ensures item != null ==> item in view.chains[index] && item.first == key
    {
      index := hash(key) % HASH_SIZE;
      item := items[index];
      ghost var i := 0;
      ghost var chain := view.chains[index];
      assert Walks(items[index], Memory().next, chain);
      while item != null
        invariant 0 <= i <= |chain| && item == At(chain, i)
        invariant forall j :: 0 <= j < i ==> chain[j].first != key
        decreases |chain| - i
      {
        if item.first == key { break; }
        item := item.next;
        i := i + 1;
      }
    }

    /** On a table whose forward half is intact, find is the map's lookup. */
    method Lookup(key: K) returns (item: Item?<K, V>, index: nat)
      requires ForwardOk()
      ensures index == hash(key) % HASH_SIZE
      ensures item != null <==> key in view.contents
      ensures item != null ==> item in view.list && item.first == key && item.second == view.contents[key]
    {
      hide Core, ChainsOk, OnChain;
      CoreFinds(Memory(), view, key, hash);
      item, index := FindEntry(key);
    }

    lemma CoreFinds(t: Links<K, V>, v: View<K, V>, key: K, hash: K -> nat)
      requires Core(t, v, hash)
      ensures ChainsOk(t, v)
      ensures OnChain(v, key, hash) <==> key in v.contents
      ensures forall x :: x in v.chains[hash(key) % HASH_SIZE] ==>
          x in v.list && x in t.data && v.contents[x.first] == t.data[x]
    {
      hide ChainsOk, ListOk;
      assert ChainOfBucket(v, hash(key) % HASH_SIZE);
      if key in v.contents {
        assert Owned(v.list, key);
      }
    }

    /** Lines 67-89, up to the last link. */
    method Link(key: K, index: nat, data: V) returns (item: Item<K, V>, oldFirst: Item?<K, V>)
      requires ForwardOk() && index == hash(key) % HASH_SIZE
      modifies this`firstItem, this`nodes, items, nodes
      ensures fresh(item) && item.first == key && item.unIndex == index && item.second == data
      ensures nodes == old(nodes) + {item} && oldFirst == old(firstItem)
      ensures items.Length == HASH_SIZE && firstItem == item && items[..] == old(items[..])[index := item]
      ensures item.prev == null && item.prevInTheList == null
      ensures item.next == old(items[..])[index] && item.nextInTheList == old(firstItem)
      ensures forall x :: x in old(nodes) ==> x.next == old(x.next)
      ensures forall x :: x in old(nodes) ==> x.nextInTheList == old(x.nextInTheList)
      ensures forall x :: x in old(nodes) ==> x.prevInTheList == old(x.prevInTheList)
      ensures forall x :: x in old(nodes) ==> x.second == old(x.second)
      ensures forall x :: x in old(nodes) && x != old(items[..])[index] ==> x.prev == old(x.prev)
      ensures old(items[..])[index] != null ==> old(items[..])[index].prev == item
    {
      hide ForwardOk;
      HeadsKnown(index);
      hide Memory;
      item := new Item(key, data, index, items[index], firstItem);
      if items[index] != null {
        items[index].prev := item;
      }
      items[index] := item;
      oldFirst := firstItem;
      firstItem := item;
      nodes := nodes + {item};
    }

    /** The fields after an insertion. */
    twostate predicate Inserted(new item: Item<K, V>)
      reads this, nodes, item
    {
      && item !in old(nodes) && nodes == old(nodes) + {item}
      && item.prev == null && item.prevInTheList == null
      && (forall x :: x in old(nodes) ==> x.next == old(x.next))
      && (forall x :: x in old(nodes) ==> x.nextInTheList == old(x.nextInTheList))
      && (forall x :: x in old(nodes) ==> x.second == old(x.second))
    }

    twostate lemma NextMapsAfter(new item: Item<K, V>)
      requires Inserted(item)
      ensures NextMap() == old(NextMap())[item := item.next]
      ensures NextLMap() == old(NextLMap())[item := item.nextInTheList]
      ensures DataMap() == old(DataMap())[item := item.second]
    {
    }

    twostate lemma PrevMapAfter(new item: Item<K, V>, new head: Item?<K, V>, new first: Item?<K, V>)
      requires Inserted(item) && (head != null ==> head in old(nodes)) && (first != null ==> first in old(nodes))
      requires forall x :: x in old(nodes) && x != head && x != first ==> x.prev == old(x.prev)
      requires head != null ==> head.prev == item
      requires first != null ==> first.prev == item
      ensures PrevMap() == Redirect(Redirect(old(PrevMap())[item := null], head, item), first, item)
    {
    }

    twostate lemma PrevLMapAfter(new item: Item<K, V>, new first: Item?<K, V>)
      requires Inserted(item) && (first != null ==> first in old(nodes))
      requires forall x :: x in old(nodes) && x != first ==> x.prevInTheList == old(x.prevInTheList)
      requires first != null ==> first.prevInTheList == item
      ensures PrevLMap() == Redirect(old(PrevLMap())[item := null], first, item)
    {
    }

    /** Lines 67-89 as written. */
    method InsertAsWritten(key: K, index: nat, data: V) returns (item: Item<K, V>)
      requires ForwardOk() && index == hash(key) % HASH_SIZE
      modifies this`firstItem, this`nodes, items, nodes
      ensures fresh(item) && item !in old(nodes) && nodes == old(nodes) + {item}
      ensures item.first == key && item.unIndex == index
      ensures index < |old(Memory()).heads| && Memory() == Insert(old(Memory()), item, data, false)
    {
      hide ForwardOk, NextMap, PrevMap, NextLMap, PrevLMap, DataMap;
      HeadsKnown(index);
      ghost var head := items[index];
      var oldFirst;
      item, oldFirst := Link(key, index, data);
      if oldFirst != null {
        oldFirst.prev := item;
      }
      NextMapsAfter(item);
      PrevMapAfter(item, head, oldFirst);
      PrevLMapAfter(item, null);
    }

    /** Insertion as written: line 84 overwrites `prev` of the old first item. */
    method AddEntryWithKnownHash(key: K, index: nat, data: V)
      requires ForwardOk() && index == hash(key) % HASH_SIZE && key !in view.contents
      modifies this`firstItem, this`nodes, this`view, items, nodes
      ensures ForwardOk() && fresh(nodes - old(nodes))
      ensures view.contents == old(view.contents)[key := data]
      ensures view.list != [] && view.list[1..] == old(view.list) && view.list[0].first == key
      ensures old(AsWritten()) ==> AsWritten()
    {
      hide Core, BackAsWritten, Memory;
      ghost var t, v, w := Memory(), view, AsWritten();
      BucketsKnown();
      var item := InsertAsWritten(key, index, data);
      view := View(v.chains[index := [item] + v.chains[index]], [item] + v.list, v.contents[key := data]);
      InsertedForward(t, v, item, data, false, w);
    }

    /** Lines 67-89 with line 84 writing `prevInTheList`. */
    method InsertRepaired(key: K, index: nat, data: V) returns (item: Item<K, V>)
      requires ForwardOk() && index == hash(key) % HASH_SIZE
      modifies this`firstItem, this`nodes, items, nodes
      ensures fresh(item) && item !in old(nodes) && nodes == old(nodes) + {item}
      ensures item.first == key && item.unIndex == index
      ensures index < |old(Memory()).heads| && Memory() == Insert(old(Memory()), item, data, true)
    {
      hide ForwardOk, NextMap, PrevMap, NextLMap, PrevLMap, DataMap;
      HeadsKnown(index);
      ghost var head := items[index];
      var oldFirst;
      item, oldFirst := Link(key, index, data);
      if oldFirst != null {
        oldFirst.prevInTheList := item;
      }
      NextMapsAfter(item);
      PrevMapAfter(item, head, null);
      PrevLMapAfter(item, oldFirst);
    }

    /** Insertion with line 84 repaired. */
    method AddEntryRepaired(key: K, index: nat, data: V)
      requires Valid() && index == hash(key) % HASH_SIZE && key !in view.contents
      modifies this`firstItem, this`nodes, this`view, items, nodes
      ensures Valid() && fresh(nodes - old(nodes))
      ensures view.contents == old(view.contents)[key := data]
      ensures view.list != [] && view.list[1..] == old(view.list) && view.list[0].first == key
    {
      hide Core, BackOk, Memory;
      ghost var t, v := Memory(), view;
      BucketsKnown();
      var item := InsertRepaired(key, index, data);
      view := View(v.chains[index := [item] + v.chains[index]], [item] + v.list, v.contents[key := data]);
      InsertedForward(t, v, item, data, true, false);
    }

    lemma InsertedForward(t: Links<K, V>, v: View<K, V>, item: Item<K, V>, data: V, repaired: bool, w: bool)
      requires Insertable(t, v, item, hash) && (w ==> BackAsWritten(t, v) && !repaired) && (repaired ==> BackOk(t, v))
      ensures Core(Insert(t, item, data, repaired), Pushed(v, item, data), hash)
      ensures w ==> BackAsWritten(Insert(t, item, data, repaired), Pushed(v, item, data))
      ensures repaired ==> BackOk(Insert(t, item, data, repaired), Pushed(v, item, data))
    {
      InsertKeepsCore(t, v, item, data, repaired, hash);
      if w { WrittenInsertKeepsBack(t, v, item, data, hash); }
      if repaired { RepairedInsertKeepsWellFormed(t, v, item, data, hash); }
    }

    lemma BucketsKnown()
      requires ForwardOk()
      ensures |view.chains| == HASH_SIZE && Memory().data.Keys == nodes
    {
    }

    lemma HeadsKnown(b: nat)
      requires ForwardOk() && b < HASH_SIZE
      ensures items.Length == HASH_SIZE && |view.chains| == HASH_SIZE
      ensures items[b] != null ==> items[b] in nodes
      ensures firstItem != null ==> firstItem in nodes
    {
      hide ListOk, Spells, Keyed, Owned;
      assert items.Length == |Memory().heads|;
      HeadsAreLive(Memory(), view, b, hash);
    }

    // ---- removal -----------------------------------------------------------------------------

    ghost predicate Neighbour(y: Item?<K, V>, x: Item<K, V>)
      reads this`nodes
    {
      y != null ==> y in nodes && y != x
    }

    /** Lines 119-121. */
    method UnlinkChain(x: Item<K, V>)
      requires x in nodes && x.unIndex < items.Length && Neighbour(x.next, x) && Neighbour(x.prev, x)
      modifies items, nodes`next, nodes`prev
      ensures x.next == old(x.next) && x.prev == old(x.prev)
      ensures items[..] == if old(items[x.unIndex]) == x then old(items[..])[x.unIndex := x.next] else old(items[..])
      ensures NextMap() == Relink(old(NextMap()), x.prev, x.next)
      ensures PrevMap() == Relink(old(PrevMap()), x.next, x.prev)
    {
      if x.next != null { x.next.prev := x.prev; }
      if x.prev != null { x.prev.next := x.next; }
      if x == items[x.unIndex] { items[x.unIndex] := x.next; }
    }

    /** Lines 123-125. */
    method UnlinkList(x: Item<K, V>)
      requires x in nodes && Neighbour(x.nextInTheList, x) && Neighbour(x.prevInTheList, x)
      modifies this`firstItem, nodes`nextInTheList, nodes`prevInTheList
      ensures x.nextInTheList == old(x.nextInTheList) && x.prevInTheList == old(x.prevInTheList)
      ensures firstItem == if old(firstItem) == x then x.nextInTheList else old(firstItem)
      ensures NextLMap() == Relink(old(NextLMap()), x.prevInTheList, x.nextInTheList)
      ensures PrevLMap() == Relink(old(PrevLMap()), x.nextInTheList, x.prevInTheList)
    {
      if x.nextInTheList != null { x.nextInTheList.prevInTheList := x.prevInTheList; }
      if x.prevInTheList != null { x.prevInTheList.nextInTheList := x.nextInTheList; }
      if x == firstItem { firstItem := x.nextInTheList; }
    }

    /** freeFn: an item is freed only while it is allocated. */
    ghost method Free(x: Item<K, V>)
      requires x in nodes
      modifies this`nodes
      ensures nodes == old(nodes) - {x}
      ensures NextMap() == old(NextMap()) - {x} && PrevMap() == old(PrevMap()) - {x}
      ensures NextLMap() == old(NextLMap()) - {x} && PrevLMap() == old(PrevLMap()) - {x}
      ensures DataMap() == old(DataMap()) - {x}
    {
      nodes := nodes - {x};
    }

    lemma FieldsOf(x: Item<K, V>)
      requires x in nodes
      ensures x in NextMap() && x in PrevMap() && x in NextLMap() && x in PrevLMap()
      ensures NextMap()[x] == x.next && PrevMap()[x] == x.prev
      ensures NextLMap()[x] == x.nextInTheList && PrevLMap()[x] == x.prevInTheList
    {
    }

    /** Lines 119-127. */
    method UnlinkItem(x: Item<K, V>)
      requires x in nodes && x.unIndex < items.Length
      requires Neighbour(x.next, x) && Neighbour(x.prev, x) && Neighbour(x.nextInTheList, x)
        && Neighbour(x.prevInTheList, x)
      modifies this`firstItem, this`nodes, items, nodes
      ensures nodes == old(nodes) - {x}
      ensures x in old(Memory()).next && x in old(Memory()).prev && x in old(Memory()).nextL && x in old(Memory()).prevL
      ensures Memory() == Unlink(old(Memory()), x)
    {
      hide NextMap, PrevMap, NextLMap, PrevLMap, DataMap, Relink;
      FieldsOf(x);
      UnlinkChain(x);
      UnlinkList(x);
      Free(x);
    }

    ghost function Place(x: Item<K, V>): (p: (nat, nat))
      requires ForwardOk() && x in view.list
      reads this, items, nodes
      ensures Located(Memory(), view, x, p.0, p.1)
    {
      LivePlaced(Memory(), view, x, hash);
      (PositionOf(view.chains[x.unIndex], x), PositionOf(view.list, x))
    }

    lemma LivePlaced(t: Links<K, V>, v: View<K, V>, x: Item<K, V>, hash: K -> nat)
      requires Core(t, v, hash) && x in v.list
      ensures x.unIndex < HASH_SIZE == |v.chains| == |t.heads| && x in v.chains[x.unIndex]
      ensures x in t.next && x in t.prev && x in t.nextL && x in t.prevL
    {
      hide Owned, Keyed, Spells;
    }

    /** The neighbours of a live item are other live items. */
    lemma NeighboursLive(x: Item<K, V>)
      requires ForwardOk() && x in view.list && (Valid() || AsWritten())
      ensures x in nodes && x.unIndex < items.Length && Memory().first == firstItem
      ensures Neighbour(x.next, x) && Neighbour(x.prev, x) && Neighbour(x.nextInTheList, x)
        && Neighbour(x.prevInTheList, x)
    {
      hide Core, BackOk, BackAsWritten;
      var (i, j) := Place(x);
      if Valid() {
        OtherItemsBack(Memory(), view, x, i, j, hash);
      } else {
        OtherItemsWritten(Memory(), view, x, i, j, hash);
      }
    }

    ghost predicate Other(t: Links<K, V>, y: Item?<K, V>, x: Item<K, V>) {
      y != null ==> y in t.data && y != x
    }

    lemma OtherItemsBack(t: Links<K, V>, v: View<K, V>, x: Item<K, V>, i: nat, j: nat, hash: K -> nat)
      requires WellFormed(t, v, hash) && Located(t, v, x, i, j)
      ensures x in t.data && Other(t, t.next[x], x) && Other(t, t.prev[x], x) && Other(t, t.nextL[x], x)
        && Other(t, t.prevL[x], x)
    {
      hide Owned, Spells, Keyed;
      RemovalFacts(t, v, x, i, j, 0, hash);
      RemovalFacts(t, v, x, i, j, x.unIndex, hash);
      ListFacts(t, v, x, i, j, hash);
      hide ChainsOk, ListOk, BackOk, Walks, WalksBack, Bucketed;
      AroundOther(v.chains[x.unIndex], i);
      AroundOther(v.list, j);
    }

    lemma AroundOther(s: seq<Item<K, V>>, i: nat)
      requires i < |s| && Injective(s)
      ensures At(s, i + 1) != null ==> At(s, i + 1) in s && At(s, i + 1) != s[i]
      ensures At(s, i - 1) != null ==> At(s, i - 1) in s && At(s, i - 1) != s[i]
    {
    }

    lemma OtherItemsWritten(t: Links<K, V>, v: View<K, V>, x: Item<K, V>, i: nat, j: nat, hash: K -> nat)
      requires Core(t, v, hash) && BackAsWritten(t, v) && Located(t, v, x, i, j)
      ensures x in t.data && Other(t, t.next[x], x) && Other(t, t.prev[x], x) && Other(t, t.nextL[x], x)
        && Other(t, t.prevL[x], x)
    {
      hide Owned, Spells;
      WrittenFacts(t, v, x, i, j, x.unIndex, hash);
      if i == 0 { HeadFacts(t, v, x, j, hash); }
      NextOnChain(t.first, t.nextL, v.list, j);
      assert Injective(v.list);
      assert x in v.list;
      assert t.prevL[x] == null;
      hide ChainsOk, ListOk, BackAsWritten, Walks, Bucketed, Keyed;
      AroundOther(v.chains[x.unIndex], i);
      AroundOther(v.list, j);
    }

    /** Removal. On a well-formed table it deletes exactly the item and its key. On a table built by the
        insertion as written, the next lookups are right if and only if the item is Harmless, the next
        iterations if and only if the item is the first one, and live items keep no link to the freed one,
        so that the table stays one built as written, if and only if the item is SafeToRemove. */
    method RemoveEntry(x: Item<K, V>)
      requires x in view.list && (Valid() || AsWritten())
      modifies this`firstItem, this`nodes, this`view, items, nodes
      ensures nodes == old(nodes) - {x}
      ensures
        var (i, j) := old(Place(x));
        view == if old(Valid()) then Dropped(old(view), x, i, j) else Rejoined(old(view), x, i, j)
      ensures view.contents == old(view.contents) - {x.first}
      ensures view.list == Cut(old(view.list), PositionOf(old(view.list), x))
      ensures old(Valid()) ==> Valid()
      ensures ChainsOk(Memory(), view) && x in old(Memory()).prev
      ensures old(AsWritten()) ==> (FindsExactly(view, hash) <==> Harmless(old(Memory()), x))
      ensures old(AsWritten()) ==> (ListOk(Memory(), view) <==> x == old(firstItem))
      ensures old(AsWritten()) ==> x in old(Memory()).nextL && (AsWritten() <==> SafeToRemove(old(Memory()), x))
      ensures old(AsWritten()) ==> (Dangling(Memory(), x) <==> !SafeToRemove(old(Memory()), x))
      ensures Shape(old(Memory()), x) && Memory() == Unlink(old(Memory()), x)
    {
      hide Core, BackOk, BackAsWritten, Unlink, Memory;
      ghost var t, v, wellFormed, written := Memory(), view, Valid(), AsWritten();
      ghost var (i, j) := Place(x);
      NeighboursLive(x);
      UnlinkItem(x);
      view := if wellFormed then Dropped(v, x, i, j) else Rejoined(v, x, i, j);
      RemovedView(t, v, x, i, j, view, wellFormed, written);
    }

    ghost predicate Shape(t: Links<K, V>, x: Item<K, V>) {
      x.unIndex < |t.heads| && x in t.next && x in t.prev && x in t.nextL && x in t.prevL
    }

    lemma RemovedView(t: Links<K, V>, v: View<K, V>, x: Item<K, V>, i: nat, j: nat, after: View<K, V>,
        wellFormed: bool, written: bool)
      requires Core(t, v, hash) && Located(t, v, x, i, j) && (wellFormed || written)
      requires (wellFormed ==> BackOk(t, v)) && (written ==> BackAsWritten(t, v))
      requires after == if wellFormed then Dropped(v, x, i, j) else Rejoined(v, x, i, j)
      ensures after.contents == v.contents - {x.first} && after.list == Cut(v.list, j)
      ensures ChainsOk(Unlink(t, x), after)
      ensures wellFormed ==> WellFormed(Unlink(t, x), after, hash)
      ensures written ==> (FindsExactly(after, hash) <==> Harmless(t, x))
      ensures written ==> (ListOk(Unlink(t, x), after) <==> t.first == x)
      ensures written ==>
          (Core(Unlink(t, x), after, hash) && BackAsWritten(Unlink(t, x), after) <==> SafeToRemove(t, x))
      ensures written ==> (Dangling(Unlink(t, x), x) <==> !SafeToRemove(t, x))
    {
      hide Core, BackOk, BackAsWritten, Unlink, Harmless, FindsExactly, ListOk, Dangling, SafeToRemove;
      if written { RemovedClean(t, v, x, i, j, after); }
      if wellFormed {
        RemoveKeepsWellFormed(t, v, x, i, j, hash);
        WellFormedChains(Unlink(t, x), after, hash);
      } else {
        WrittenRemoveChains(t, v, x, i, j, hash);
      }
      hide ChainsOk;
      if written {
        WrittenRemoveFindsIff(t, v, x, i, j, after, hash);
        WrittenRemoveListIff(t, v, x, i, j, hash);
        SameList(Unlink(t, x), after, Dropped(v, x, i, j));
      }
    }

    lemma RemovedClean(t: Links<K, V>, v: View<K, V>, x: Item<K, V>, i: nat, j: nat, after: View<K, V>)
      requires Core(t, v, hash) && BackAsWritten(t, v) && Located(t, v, x, i, j)
      requires after == Dropped(v, x, i, j) || after == Rejoined(v, x, i, j)
      ensures Core(Unlink(t, x), after, hash) && BackAsWritten(Unlink(t, x), after) <==> SafeToRemove(t, x)
      ensures Dangling(Unlink(t, x), x) <==> !SafeToRemove(t, x)
    {
      hide Core, BackAsWritten, Dangling, SafeToRemove, Rejoined, Dropped;
      WrittenRemoveCleanIff(t, v, x, i, j, hash);
      if SafeToRemove(t, x) {
        SafeRemoveKeepsWritten(t, v, x, i, j, hash);
      } else if Core(Unlink(t, x), after, hash) && BackAsWritten(Unlink(t, x), after) {
        WrittenIsClean(Unlink(t, x), after, x, hash);
      }
    }

    lemma WellFormedChains(t: Links<K, V>, v: View<K, V>, hash: K -> nat)
      requires WellFormed(t, v, hash)
      ensures ChainsOk(t, v)
    {
    }

    lemma SameList(t: Links<K, V>, a: View<K, V>, b: View<K, V>)
      requires a.list == b.list
      ensures ListOk(t, a) == ListOk(t, b)
    {
    }

    /** Assignment through an iterator: it->second = value. */
    method SetValue(x: Item<K, V>, value: V)
      requires ForwardOk() && x in view.list && x in nodes
      modifies x`second, this`view
      ensures x.second == value && Memory() == old(Memory()).(data := old(Memory()).data[x := value])
      ensures x.first in old(view.contents) && view == old(view).(contents := old(view.contents)[x.first := value])
      ensures ForwardOk() && (old(Valid()) ==> Valid()) && (old(AsWritten()) ==> AsWritten())
    {
      hide Core, BackOk, BackAsWritten, NextMap, PrevMap, NextLMap, PrevLMap;
      ghost var t, v := Memory(), view;
      ValueSet(t, v, x, value);
      BackIgnoresData(t, v, t.data[x := value], v.contents[x.first := value]);
      x.second := value;
      view := v.(contents := v.contents[x.first := value]);
      assert Memory() == t.(data := t.data[x := value]);
    }

    lemma ValueSet(t: Links<K, V>, v: View<K, V>, x: Item<K, V>, value: V)
      requires Core(t, v, hash) && x in v.list
      ensures x.first in v.contents
      ensures Core(t.(data := t.data[x := value]), v.(contents := v.contents[x.first := value]), hash)
    {
      hide Walks, Injective, Owned;
      var t', v' := t.(data := t.data[x := value]), v.(contents := v.contents[x.first := value]);
      assert ChainsOk(t', v') && ListOk(t', v') by { hide Keyed, Spells, Allocated, Bucketed; }
      assert Bucketed(v') by {
        hide Keyed, Spells, Allocated, ChainsOk;
        forall b | 0 <= b < HASH_SIZE ensures ChainOfBucket(v', b) { assert ChainOfBucket(v, b); }
      }
      hide ChainsOk, Bucketed;
    }

    /** The back links do not depend on the data. */
    lemma BackIgnoresData(t: Links<K, V>, v: View<K, V>, data: map<Item<K, V>, V>, contents: map<K, V>)
      ensures BackOk(t, v) ==> BackOk(t.(data := data), v.(contents := contents))
      ensures BackAsWritten(t, v) ==> BackAsWritten(t.(data := data), v.(contents := contents))
    {
      hide WalksBack, InnerBack, HeadAsWritten;
    }

    method Newest() returns (x: Item<K, V>)
      requires ForwardOk() && view.list != []
      ensures x == view.list[0] && x == firstItem
    {
      TraversalFacts(Memory(), view);
      x := firstItem;
    }

    /** begin() and operator++: a whole traversal meets every live item exactly once. */
    method Traverse() returns (visited: seq<Item<K, V>>)
      requires ForwardOk()
      ensures visited == view.list && Injective(visited)
      ensures forall k :: k in view.contents <==> exists x :: x in visited && x.first == k
    {
      hide Core, NextMap, PrevMap, PrevLMap, DataMap, Walks, Injective;
      TraversalFacts(Memory(), view);
      hide ForwardOk;
      visited := [];
      var item := firstItem;
      while item != null
        invariant |visited| <= |view.list| && visited == view.list[..|visited|]
        invariant item == At(view.list, |visited|)
        decreases |view.list| - |visited|
      {
        NextInList(Memory(), view, |visited|);
        visited := visited + [item];
        item := item.nextInTheList;
      }
    }

    /** The destructor frees every item exactly once, and reads none after it was freed. */
    method Destroy() returns (ghost freed: seq<Item<K, V>>)
      requires ForwardOk()
      modifies this`nodes
      ensures freed == old(view).list && Injective(freed)
      ensures nodes == {}
    {
      hide Core, NextMap, PrevMap, PrevLMap, DataMap, Walks, Injective;
      ghost var t, v := Memory(), view;
      TraversalFacts(t, v);
      AllocatedAreListed();
      freed := [];
      var item := firstItem;
      while item != null
        invariant |freed| <= |v.list| && freed == v.list[..|freed|]
        invariant item == At(v.list, |freed|)
        invariant forall x :: x in nodes <==> x in v.list[|freed|..]
        decreases |v.list| - |freed|
      {
        NextInList(t, v, |freed|);
        OnlyOnce(v.list, |freed|);
        assert item in v.list[|freed|..];
        var next := item.nextInTheList;
        Free(item);
        freed := freed + [item];
        item := next;
      }
    }

    lemma AllocatedAreListed()
      requires ForwardOk()
      ensures forall x :: x in nodes <==> x in view.list
    {
      assert forall x :: x in nodes <==> x in DataMap();
    }

    lemma OnlyOnce(s: seq<Item<K, V>>, i: nat)
      requires Injective(s) && i < |s|
      ensures forall x :: x in s[i + 1..] <==> x in s[i..] && x != s[i]
    {
    }

    lemma NextInList(t: Links<K, V>, v: View<K, V>, i: nat)
      requires Walks(t.first, t.nextL, v.list) && i < |v.list|
      ensures v.list[i] in t.nextL && t.nextL[v.list[i]] == At(v.list, i + 1)
    {
    }

    lemma TraversalFacts(t: Links<K, V>, v: View<K, V>)
      requires Core(t, v, hash)
      ensures Walks(t.first, t.nextL, v.list) && Injective(v.list) && t.first == At(v.list, 0)
      ensures forall k :: k in v.contents <==> exists x :: x in v.list && x.first == k
    {
      hide ChainsOk, Bucketed, Injective;
      forall k ensures k in v.contents <==> exists x :: x in v.list && x.first == k {
        if k in v.contents { assert Owned(v.list, k); }
      }
    }
  }

  /** The table after inserting the keys 0, 1 and 4096: the item of 4096 leads bucket 0, the item of 1
      is alone in bucket 1. */
  lemma ThreeKeys<K, V>(t: Links<K, V>, v: View<K, V>, hash: K -> nat, c: Item<K, V>, x: Item<K, V>, a: Item<K, V>)
    requires Core(t, v, hash) && BackAsWritten(t, v)
    requires v.list == [c, x, a] && hash(c.first) == 4096 && hash(x.first) == 1 && hash(a.first) == 0
    ensures |v.chains| == HASH_SIZE && c.unIndex == 0 && x.unIndex == 1
    ensures c in v.chains[0] && PositionOf(v.chains[0], c) == 0
    ensures x in v.chains[1] && PositionOf(v.chains[1], x) == 0
    ensures forall y :: y in v.chains[1] ==> y == x
  {
    hide Core, BackAsWritten, Injective;
    FirstIsHead(t, v, hash);
    LiveInfo(t, v, c, hash);
    LiveInfo(t, v, x, hash);
    BucketInfo(t, v, 0, hash);
    BucketInfo(t, v, 1, hash);
    PositionFirst(v.chains[0], c);
    assert v.chains[1][0] in v.chains[1];
    PositionFirst(v.chains[1], x);
  }

  lemma LiveInfo<K, V>(t: Links<K, V>, v: View<K, V>, x: Item<K, V>, hash: K -> nat)
    requires Core(t, v, hash) && x in v.list
    ensures |v.chains| == |t.heads| == HASH_SIZE
    ensures x.unIndex == hash(x.first) % HASH_SIZE && x in v.chains[x.unIndex]
  {
    hide Owned, Spells, Allocated, Injective;
  }

  lemma BucketInfo<K, V>(t: Links<K, V>, v: View<K, V>, b: nat, hash: K -> nat)
    requires Core(t, v, hash) && b < HASH_SIZE
    ensures |v.chains| == |t.heads| == HASH_SIZE
    ensures t.heads[b] == At(v.chains[b], 0) && Injective(v.chains[b])
    ensures forall y :: y in v.chains[b] ==> y in v.list && y.unIndex == b && y.unIndex == hash(y.first) % HASH_SIZE
  {
    hide Owned, Spells, Allocated, Injective;
    assert ChainOfBucket(v, b) && Walks(t.heads[b], t.next, v.chains[b]);
  }

  lemma PositionFirst<T>(s: seq<T>, x: T)
    requires Injective(s) && s != [] && s[0] == x
    ensures x in s && PositionOf(s, x) == 0
  {
  }

  /** In such a table line 84 left no back link on the list. */
  lemma NotLinkedBack<K, V>(t: Links<K, V>, v: View<K, V>)
    requires BackAsWritten(t, v) && |v.list| > 1
    ensures !BackOk(t, v)
  {
    assert v.list[1] in v.list;
  }

  lemma LostFromBucket0<K, V>(v: View<K, V>, c: Item<K, V>, x: Item<K, V>, a: Item<K, V>)
    requires |v.chains| == HASH_SIZE && v.list == [c, x, a] && x.unIndex == 1 && c.unIndex == 0
    requires x != c && x != a
    requires c in v.chains[0] && PositionOf(v.chains[0], c) == 0
    requires x in v.chains[1] && PositionOf(v.chains[1], x) == 0 && forall y :: y in v.chains[1] ==> y == x
    ensures PositionOf(v.list, x) == 1
    ensures forall y :: y in Rejoined(v, x, 0, 1).chains[0] ==> y == c || y == x
  {
    assert v.list[PositionOf(v.list, x)] == x && v.list[0] == c && v.list[2] == a;
    var r := Rejoined(v, x, 0, 1);
    assert v.chains[0][..1] == [c] && forall y :: y in v.chains[1][1..] ==> y in v.chains[1];
    assert r.chains[0] == [c] + v.chains[1][1..];
  }

  method BuildThreeKeys()
      returns (table: HashItemsByPtr<nat, nat>, x: Item<nat, nat>, ghost c: Item<nat, nat>, ghost a: Item<nat, nat>)
    ensures fresh(table) && fresh(table.items) && fresh(table.nodes)
    ensures table.AsWritten() && (forall k :: table.hash(k) == k)
    ensures table.view.list == [c, x, a] && c.first == 4096 && x.first == 1 && a.first == 0
    ensures table.view.contents == map[0 := 7, 1 := 8, 4096 := 9]
  {
    hide Core, BackOk, BackAsWritten, HashItemsByPtr.Memory;
    table := new HashItemsByPtr<nat, nat>(k => k);
    table.AddEntryWithKnownHash(0, 0, 7);
    a := table.view.list[0];
    table.AddEntryWithKnownHash(1, 1, 8);
    x := table.Newest();
    table.AddEntryWithKnownHash(4096, 0, 9);
    c := table.view.list[0];
  }

  /** Three insertions and one removal with line 84 as written: removing key 1 loses key 0, which is in
      another bucket and still belongs to the map. */
  method Line84LosesAKey() returns (found: bool, ghost inMap: bool)
    ensures inMap && !found
  {
    hide Core, BackOk, BackAsWritten, ChainsOk, ListOk, Rejoined, Harmless, FindsExactly, Cut, SafeToRemove, Dangling,
        Unlink;
    var table, x, c, a := BuildThreeKeys();
    ThreeKeys(table.Memory(), table.view, table.hash, c, x, a);
    NotLinkedBack(table.Memory(), table.view);
    LostFromBucket0(table.view, c, x, a);
    table.RemoveEntry(x);
    inMap := 0 in table.view.contents;
    var lost, _ := table.FindEntry(0);
    found := lost != null;
  }

  lemma BackLinkStays(t: Links<nat, nat>, v: View<nat, nat>, hash: nat -> nat, a: Item<nat, nat>, b: Item<nat, nat>)
    requires Core(t, v, hash) && BackAsWritten(t, v) && (forall k :: hash(k) == k)
    requires v.list == [b, a] && a.first == 0 && b.first == 1
    ensures b.unIndex < |t.heads| && b in t.next && b in t.prev && b in t.nextL && b in t.prevL
    ensures a in Unlink(t, b).prev && Unlink(t, b).prev[a] == b && t.first == b && Harmless(t, b) && !SafeToRemove(t, b)
  {
    hide Core, BackAsWritten, Injective;
    assert b in v.list && a in v.list;
    LiveInfo(t, v, a, hash);
    LiveInfo(t, v, b, hash);
    SecondPointsBack(t, v, hash);
    FirstIsHead(t, v, hash);
    WrittenPrev(t, v, a, hash);
    WrittenPrev(t, v, b, hash);
    HeadHasNoPrev(t, v, b);
    SecondIsNext(t, v, a, b, hash);
  }

  lemma HeadHasNoPrev(t: Links<nat, nat>, v: View<nat, nat>, b: Item<nat, nat>)
    requires BackAsWritten(t, v) && v.list != [] && v.list[0] == b && IsHead(t, b)
    ensures b in t.prev && t.prev[b] == null
  {
    assert HeadAsWritten(t.prev, v.list, 0);
  }

  lemma SecondIsNext(t: Links<nat, nat>, v: View<nat, nat>, a: Item<nat, nat>, b: Item<nat, nat>, hash: nat -> nat)
    requires Core(t, v, hash) && v.list == [b, a]
    ensures b in t.nextL && t.nextL[b] == a
  {
    assert t.nextL[v.list[0]] == At(v.list, 1);
  }

  method BuildTwoKeys() returns (table: HashItemsByPtr<nat, nat>, a: Item<nat, nat>, b: Item<nat, nat>)
    ensures fresh(table) && fresh(table.items) && fresh(table.nodes)
    ensures table.AsWritten() && (forall k :: table.hash(k) == k) && table.firstItem == b
    ensures table.view.list == [b, a] && a.first == 0 && b.first == 1
    ensures table.view.contents == map[0 := 7, 1 := 8]
  {
    hide Core, BackOk, BackAsWritten, HashItemsByPtr.Memory;
    table := new HashItemsByPtr<nat, nat>(k => k);
    table.AddEntryWithKnownHash(0, 0, 7);
    a := table.Newest();
    table.AddEntryWithKnownHash(1, 1, 8);
    b := table.Newest();
  }

  lemma CutFirst<T>(s: seq<T>, a: T, b: T)
    requires s == [b, a] && a != b
    ensures PositionOf(s, b) == 0 && Cut(s, 0) == [a]
  {
  }

  /** Two insertions in different buckets and one removal with line 84 as written. Removing the newest
      item, which lookups and iteration survive, leaves the other one with a `prev` that points at freed
      memory: removing that one as well would write there in line 120. */
  method Line84LeavesALink() returns (table: HashItemsByPtr<nat, nat>, a: Item<nat, nat>, ghost b: Item<nat, nat>)
    ensures |table.view.chains| == HASH_SIZE && FindsExactly(table.view, table.hash)
      && ListOk(table.Memory(), table.view)
    ensures table.view.contents == map[0 := 7] && table.view.list == [a]
    ensures a in table.nodes && a.prev == b && b !in table.nodes && !table.Neighbour(a.prev, a)
  {
    hide Core, BackOk, BackAsWritten, ListOk, Harmless, SafeToRemove, FindsExactly, Unlink, Dangling, Rejoined,
        HashItemsByPtr.Memory;
    var newest;
    table, a, newest := BuildTwoKeys();
    b := newest;
    BackLinkStays(table.Memory(), table.view, table.hash, a, b);
    CutFirst(table.view.list, a, b);
    table.RemoveEntry(newest);
    assert |table.view.chains| == HASH_SIZE;
    PrevOf(table, a);
  }

  lemma PrevOf(table: HashItemsByPtr<nat, nat>, a: Item<nat, nat>)
    requires a in table.Memory().prev
    ensures a in table.nodes && table.Memory().prev[a] == a.prev
  {
  }
}
