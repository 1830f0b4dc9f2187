/** The links of HashItemsByPtr as values: the machine part (array, first item, link fields), the view
    a reader has of it (chains, list, map), what insertion and removal do to the links, and which
    tables they leave well formed. Items are identities here; only their immutable parts are read. */
module HashLinks {

  const HASH_SIZE: nat := 4096

  class Item<K, V> {
    const first: K
    const unIndex: nat
    var second: V
    var prev: Item?<K, V>
    var next: Item?<K, V>
    var prevInTheList: Item?<K, V>
    var nextInTheList: Item?<K, V>

    constructor (key: K, data: V, index: nat, next: Item?<K, V>, nextInTheList: Item?<K, V>)
      ensures first == key && second == data && unIndex == index
      ensures this.next == next && this.nextInTheList == nextInTheList
      ensures prev == null && prevInTheList == null
    {
      first, second, unIndex := key, data, index;
      this.next, this.nextInTheList := next, nextInTheList;
      prev, prevInTheList := null, null;
    }
  }

  /** Everything the code reads and writes. */
  datatype Links<K, V> = Links(
    heads: seq<Item?<K, V>>,
    first: Item?<K, V>,
    next: map<Item<K, V>, Item?<K, V>>,
    prev: map<Item<K, V>, Item?<K, V>>,
    nextL: map<Item<K, V>, Item?<K, V>>,
    prevL: map<Item<K, V>, Item?<K, V>>,
    data: map<Item<K, V>, V>)

  /** What a walk over the links should meet. */
  datatype View<K, V> = View(
    chains: seq<seq<Item<K, V>>>,
    list: seq<Item<K, V>>,
    contents: map<K, V>)

  ghost function At<K, V>(s: seq<Item<K, V>>, i: int): Item?<K, V> {
    if 0 <= i < |s| then s[i] else null
  }

  ghost predicate Injective<T>(s: seq<T>) {
    forall i, j :: 0 <= i < j < |s| ==> s[i] != s[j]
  }

  /** Following `links` from `head` meets exactly the items of s, then null. */
  ghost predicate Walks<K, V>(head: Item?<K, V>, links: map<Item<K, V>, Item?<K, V>>, s: seq<Item<K, V>>) {
    && head == At(s, 0)
    && forall i :: 0 <= i < |s| ==> s[i] in links && links[s[i]] == At(s, i + 1)
  }

  ghost predicate ChainsOk<K, V>(t: Links<K, V>, v: View<K, V>) {
    && |t.heads| == HASH_SIZE && |v.chains| == HASH_SIZE
    && forall b :: 0 <= b < HASH_SIZE ==> Walks(t.heads[b], t.next, v.chains[b])
  }

  ghost predicate ListOk<K, V>(t: Links<K, V>, v: View<K, V>) {
    Walks(t.first, t.nextL, v.list)
  }

  ghost predicate Owned<K, V>(list: seq<Item<K, V>>, key: K) {
    exists x :: x in list && x.first == key
  }

  /** The live items carry pairwise different keys, each in the bucket of its key. */
  ghost predicate Keyed<K, V>(list: seq<Item<K, V>>, hash: K -> nat) {
    && Injective(list)
    && (forall x :: x in list ==> x.unIndex == hash(x.first) % HASH_SIZE)
    && (forall x, y :: x in list && y in list && x.first == y.first ==> x == y)
  }

  /** The live items spell the map. */
  ghost predicate Spells<K, V>(t: Links<K, V>, v: View<K, V>) {
    && (forall x :: x in v.list ==> x in t.data && x.first in v.contents && v.contents[x.first] == t.data[x])
    && (forall k :: k in v.contents ==> Owned(v.list, k))
  }

  /** Exactly the live items have fields. */
  ghost predicate Allocated<K, V>(t: Links<K, V>, v: View<K, V>) {
    && (forall x :: x in v.list ==> x in t.data)
    && (forall x :: x in t.data ==> x in v.list && x in t.next && x in t.prev && x in t.nextL && x in t.prevL)
  }

  ghost predicate ChainOfBucket<K, V>(v: View<K, V>, b: nat)
    requires b < |v.chains|
  {
    && Injective(v.chains[b])
    && (forall x :: x in v.chains[b] ==> x in v.list && x.unIndex == b)
  }

  /** Every chain holds live items of its own bucket, each once, and every live item is on one. */
  ghost predicate Bucketed<K, V>(v: View<K, V>) {
    && |v.chains| == HASH_SIZE
    && (forall b :: 0 <= b < HASH_SIZE ==> ChainOfBucket(v, b))
    && (forall x :: x in v.list ==> x.unIndex < HASH_SIZE && x in v.chains[x.unIndex])
  }

  ghost predicate Core<K, V>(t: Links<K, V>, v: View<K, V>, hash: K -> nat) {
    ChainsOk(t, v) && ListOk(t, v) && Bucketed(v) && Keyed(v.list, hash) && Spells(t, v) && Allocated(t, v)
  }

  ghost predicate WalksBack<K, V>(links: map<Item<K, V>, Item?<K, V>>, s: seq<Item<K, V>>) {
    forall i :: 0 <= i < |s| ==> s[i] in links && links[s[i]] == At(s, i - 1)
  }

  /** Both structures are linked backwards as well. */
  ghost predicate BackOk<K, V>(t: Links<K, V>, v: View<K, V>) {
    && (forall b :: 0 <= b < |v.chains| ==> WalksBack(t.prev, v.chains[b]))
    && WalksBack(t.prevL, v.list)
  }

  /** A well-formed hash table. */
  ghost predicate WellFormed<K, V>(t: Links<K, V>, v: View<K, V>, hash: K -> nat) {
    Core(t, v, hash) && BackOk(t, v)
  }

  ghost predicate IsHead<K, V>(t: Links<K, V>, x: Item<K, V>) {
    x.unIndex < |t.heads| && t.heads[x.unIndex] == x
  }

  ghost predicate InnerBack<K, V>(links: map<Item<K, V>, Item?<K, V>>, s: seq<Item<K, V>>) {
    forall i :: 0 < i < |s| ==> s[i] in links && links[s[i]] == s[i - 1]
  }

  /** The first item of a bucket is its most recent one, and its `prev` is its predecessor in the list. */
  ghost predicate HeadAsWritten<K, V>(links: map<Item<K, V>, Item?<K, V>>, list: seq<Item<K, V>>, j: nat)
    requires j < |list|
  {
    && list[j] in links && links[list[j]] == At(list, j - 1)
    && forall i :: 0 <= i < j ==> list[i].unIndex != list[j].unIndex
  }

  /** The items of bucket b, in the order of the list. */
  ghost function OfBucket<K, V>(list: seq<Item<K, V>>, b: nat): seq<Item<K, V>> {
    if list == [] then [] else (if list[0].unIndex == b then [list[0]] else []) + OfBucket(list[1..], b)
  }

  /** The back links when only line 84 as written ever ran: `prevInTheList` is null everywhere, `prev`
      is right inside the chains, but the first item of a bucket points at whatever item was inserted
      right after it. The chains follow the order of the list. */
  ghost predicate BackAsWritten<K, V>(t: Links<K, V>, v: View<K, V>) {
    && (forall b :: 0 <= b < |v.chains| ==> v.chains[b] == OfBucket(v.list, b))
    && (forall b :: 0 <= b < |v.chains| ==> InnerBack(t.prev, v.chains[b]))
    && (forall x :: x in v.list ==> x in t.prevL && t.prevL[x] == null)
    && (forall j :: 0 <= j < |v.list| && IsHead(t, v.list[j]) ==> HeadAsWritten(t.prev, v.list, j))
  }

  // ---- finding ------------------------------------------------------------------------------

  /** FindEntry meets the key when it walks the chain of its bucket. */
  ghost predicate OnChain<K, V>(v: View<K, V>, key: K, hash: K -> nat)
    requires |v.chains| == HASH_SIZE
  {
    exists x :: x in v.chains[hash(key) % HASH_SIZE] && x.first == key
  }

  /** FindEntry answers as the map does, for every key. */
  ghost predicate FindsExactly<K(!new), V>(v: View<K, V>, hash: K -> nat)
    requires |v.chains| == HASH_SIZE
  {
    forall k :: OnChain(v, k, hash) <==> k in v.contents
  }

  /** When only live items are on the chains, find is exact if and only if no live item lost its
      chain. */
  lemma FindsExactlyIff<K(!new), V>(t: Links<K, V>, v: View<K, V>, hash: K -> nat)
    requires |v.chains| == HASH_SIZE && Keyed(v.list, hash) && Spells(t, v)
    requires forall b, x :: 0 <= b < HASH_SIZE && x in v.chains[b] ==> x in v.list
    ensures FindsExactly(v, hash) <==> forall x :: x in v.list ==> x in v.chains[x.unIndex]
  {
    if forall x :: x in v.list ==> x in v.chains[x.unIndex] {
      forall k ensures OnChain(v, k, hash) <==> k in v.contents {
        if k in v.contents {
          assert Owned(v.list, k);
          var x :| x in v.list && x.first == k;
          assert x in v.chains[hash(k) % HASH_SIZE];
        }
      }
    }
    if FindsExactly(v, hash) {
      hide Owned;
      forall x | x in v.list ensures x in v.chains[x.unIndex] {
        assert OnChain(v, x.first, hash);
      }
    }
  }

  // ---- insertion ----------------------------------------------------------------------------

  /** The write `from->link = to`, done only if there is such an item. */
  ghost function Redirect<K, V>(links: map<Item<K, V>, Item?<K, V>>, from: Item?<K, V>, to: Item?<K, V>)
      : map<Item<K, V>, Item?<K, V>>
  {
    if from != null then links[from := to] else links
  }

  /** Lines 67-89. The last write of the list part goes to `prev` as written, to `prevInTheList` in
      the repaired form. */
  ghost function Insert<K, V>(t: Links<K, V>, item: Item<K, V>, value: V, repaired: bool): Links<K, V>
    requires item.unIndex < |t.heads|
  {
    var head := t.heads[item.unIndex];
    Links(t.heads[item.unIndex := item], item,
          t.next[item := head],
          Redirect(Redirect(t.prev[item := null], head, item), if repaired then null else t.first, item),
          t.nextL[item := t.first],
          Redirect(t.prevL[item := null], if repaired then t.first else null, item),
          t.data[item := value])
  }

  ghost function Pushed<K, V>(v: View<K, V>, item: Item<K, V>, value: V): View<K, V>
    requires item.unIndex < |v.chains|
  {
    View(v.chains[item.unIndex := [item] + v.chains[item.unIndex]], [item] + v.list, v.contents[item.first := value])
  }

  ghost predicate Insertable<K, V>(t: Links<K, V>, v: View<K, V>, item: Item<K, V>, hash: K -> nat) {
    Core(t, v, hash) && item !in t.data && item.unIndex == hash(item.first) % HASH_SIZE && item.first !in v.contents
  }

  lemma PushWalks<K, V>(head: Item?<K, V>, links: map<Item<K, V>, Item?<K, V>>, s: seq<Item<K, V>>, item: Item<K, V>)
    requires Walks(head, links, s) && item !in s
    ensures Walks(item, links[item := head], [item] + s)
  {
    var r := [item] + s;
    forall i | 0 <= i < |r| ensures r[i] in links[item := head] && links[item := head][r[i]] == At(r, i + 1) {
      if i > 0 { assert r[i] == s[i - 1]; }
    }
  }

  lemma OtherWalks<K, V>(head: Item?<K, V>, links: map<Item<K, V>, Item?<K, V>>, s: seq<Item<K, V>>, item: Item<K, V>,
      target: Item?<K, V>)
    requires Walks(head, links, s) && item !in s
    ensures Walks(head, links[item := target], s)
  {
  }

  /** Insertion keeps the forward half of the table, whichever back link it writes. */
  lemma InsertKeepsCore<K, V>(t: Links<K, V>, v: View<K, V>, item: Item<K, V>, value: V, repaired: bool, hash: K -> nat)
    requires Insertable(t, v, item, hash)
    ensures Core(Insert(t, item, value, repaired), Pushed(v, item, value), hash)
  {
    InsertKeepsWalks(t, v, item, value, repaired, hash);
    InsertKeepsMap(t, v, item, value, repaired, hash);
  }

  lemma InsertKeepsWalks<K, V>(t: Links<K, V>, v: View<K, V>, item: Item<K, V>, value: V, repaired: bool,
      hash: K -> nat)
    requires Insertable(t, v, item, hash)
    ensures var t', v' := Insert(t, item, value, repaired), Pushed(v, item, value);
      ChainsOk(t', v') && ListOk(t', v') && Bucketed(v')
  {
    hide Owned, Walks, Injective;
    var t', v' := Insert(t, item, value, repaired), Pushed(v, item, value);
    assert item !in v.list;
    forall b | 0 <= b < HASH_SIZE ensures Walks(t'.heads[b], t'.next, v'.chains[b]) && ChainOfBucket(v', b) {
      assert ChainOfBucket(v, b) && item !in v.chains[b];
      if b == item.unIndex {
        PushInjective(v.chains[b], item);
        PushWalks(t.heads[b], t.next, v.chains[b], item);
      }
      OtherWalks(t.heads[b], t.next, v.chains[b], item, t.heads[item.unIndex]);
    }
    PushWalks(t.first, t.nextL, v.list, item);
  }

  lemma PushInjective<T>(s: seq<T>, x: T)
    requires Injective(s) && x !in s
    ensures Injective([x] + s)
  {
  }

  lemma InsertKeepsMap<K, V>(t: Links<K, V>, v: View<K, V>, item: Item<K, V>, value: V, repaired: bool, hash: K -> nat)
    requires Insertable(t, v, item, hash)
    ensures var t', v' := Insert(t, item, value, repaired), Pushed(v, item, value);
      Keyed(v'.list, hash) && Spells(t', v') && Allocated(t', v')
  {
    HeadsAreLive(t, v, item.unIndex, hash);
    hide ChainsOk, ListOk, Bucketed, Owned, Injective;
    PushKeyed(v.list, item, hash) by { assert forall x :: x in v.list ==> x.first in v.contents; }
    hide Keyed;
    PushSpells(t.data, v, item, value);
    PushAllocated(t, v, item, value, repaired);
    hide Spells;
  }

  lemma PushAllocated<K, V>(t: Links<K, V>, v: View<K, V>, item: Item<K, V>, value: V, repaired: bool)
    requires Allocated(t, v) && item.unIndex < |t.heads| && item.unIndex < |v.chains|
    requires t.heads[item.unIndex] != null ==> t.heads[item.unIndex] in t.data
    requires t.first != null ==> t.first in t.data
    ensures Allocated(Insert(t, item, value, repaired), Pushed(v, item, value))
  {
    assert forall x :: x in [item] + v.list <==> x == item || x in v.list;
  }

  lemma PushSpells<K, V>(data: map<Item<K, V>, V>, v: View<K, V>, item: Item<K, V>, value: V)
    requires item !in v.list && item.first !in v.contents
    requires forall x :: x in v.list ==> x in data && x.first in v.contents && v.contents[x.first] == data[x]
    requires forall k :: k in v.contents ==> Owned(v.list, k)
    ensures var list, data', contents := [item] + v.list, data[item := value], v.contents[item.first := value];
      && (forall x :: x in list ==> x in data' && x.first in contents && contents[x.first] == data'[x])
      && (forall k :: k in contents ==> Owned(list, k))
  {
    hide Owned;
    PushOwned(v, item, value);
    assert forall x :: x in [item] + v.list ==> x == item || x in v.list;
  }

  lemma PushKeyed<K, V>(list: seq<Item<K, V>>, item: Item<K, V>, hash: K -> nat)
    requires Keyed(list, hash) && item !in list && item.unIndex == hash(item.first) % HASH_SIZE
    requires forall x :: x in list ==> x.first != item.first
    ensures Keyed([item] + list, hash)
  {
    PushInjective(list, item);
    hide Injective;
    assert forall x :: x in [item] + list ==> x == item || x in list;
  }

  lemma PushOwned<K, V>(v: View<K, V>, item: Item<K, V>, value: V)
    requires forall k :: k in v.contents ==> Owned(v.list, k)
    ensures forall k :: k in v.contents[item.first := value] ==> Owned([item] + v.list, k)
  {
    var list := [item] + v.list;
    assert list[0] == item && forall x :: x in v.list ==> x in list;
    forall k | k in v.contents[item.first := value] ensures Owned(list, k) {
      if k != item.first {
        assert Owned(v.list, k);
        var x :| x in v.list && x.first == k;
        assert x in list;
      }
    }
  }

  lemma HeadsAreLive<K, V>(t: Links<K, V>, v: View<K, V>, b: nat, hash: K -> nat)
    requires Core(t, v, hash) && b < HASH_SIZE
    ensures t.heads[b] != null ==> t.heads[b] in v.list
    ensures t.first != null ==> t.first in v.list
  {
    hide Owned;
    assert Walks(t.heads[b], t.next, v.chains[b]) && ChainOfBucket(v, b);
  }

  lemma PushBack<K, V>(links: map<Item<K, V>, Item?<K, V>>, s: seq<Item<K, V>>, item: Item<K, V>)
    requires WalksBack(links, s) && Injective(s) && item !in s
    ensures WalksBack(if s != [] then links[item := null][s[0] := item] else links[item := null], [item] + s)
  {
    var r := [item] + s;
    assert forall i :: 0 < i < |r| ==> r[i] == s[i - 1];
  }

  lemma OtherBack<K, V>(links: map<Item<K, V>, Item?<K, V>>, s: seq<Item<K, V>>, a: Item<K, V>, b: Item?<K, V>,
      target: Item?<K, V>)
    requires WalksBack(links, s) && a !in s && (b != null ==> b !in s)
    ensures WalksBack(links[a := null], s)
    ensures b != null ==> WalksBack(links[a := null][b := target], s)
  {
  }

  /** What a well-formed forward half says about one bucket, and about an item that is not in it. */
  lemma BucketFacts<K, V>(t: Links<K, V>, v: View<K, V>, b: nat, item: Item<K, V>, c: nat, hash: K -> nat)
    requires Core(t, v, hash) && b < HASH_SIZE && c < HASH_SIZE && item !in t.data
    ensures |t.heads| == |v.chains| == HASH_SIZE
    ensures t.heads[b] == At(v.chains[b], 0) && Injective(v.chains[b]) && item !in v.chains[b] && item !in v.list
    ensures t.heads[c] != null && b != c ==> t.heads[c] !in v.chains[b]
    ensures t.heads[b] != item && (t.heads[b] != null ==> t.heads[b].unIndex == b)
    ensures t.first == At(v.list, 0) && Injective(v.list)
  {
    hide Owned, Injective;
    assert Walks(t.heads[b], t.next, v.chains[b]) && ChainOfBucket(v, b);
    assert Walks(t.heads[c], t.next, v.chains[c]) && ChainOfBucket(v, c);
    assert t.heads[c] != null ==> t.heads[c] in v.chains[c];
  }

  /** In the repaired form insertion keeps the whole table well formed. */
  lemma RepairedInsertKeepsWellFormed<K, V>(t: Links<K, V>, v: View<K, V>, item: Item<K, V>, value: V, hash: K -> nat)
    requires Insertable(t, v, item, hash) && BackOk(t, v)
    ensures WellFormed(Insert(t, item, value, true), Pushed(v, item, value), hash)
  {
    hide Core, Walks, WalksBack, Injective;
    var idx := item.unIndex;
    BucketFacts(t, v, idx, item, idx, hash);
    InsertKeepsCore(t, v, item, value, true, hash);
    var t', v' := Insert(t, item, value, true), Pushed(v, item, value);
    forall b | 0 <= b < HASH_SIZE ensures WalksBack(t'.prev, v'.chains[b]) {
      BucketFacts(t, v, b, item, idx, hash);
      if b == idx {
        PushBack(t.prev, v.chains[b], item);
      } else {
        OtherBack(t.prev, v.chains[b], item, t.heads[idx], item);
      }
    }
    PushBack(t.prevL, v.list, item);
  }

  /** The most recent item is the first of its bucket. */
  lemma FirstIsHead<K, V>(t: Links<K, V>, v: View<K, V>, hash: K -> nat)
    requires Core(t, v, hash) && BackAsWritten(t, v) && v.list != []
    ensures t.first == v.list[0] && IsHead(t, v.list[0])
  {
    hide Owned, Spells, Keyed, Allocated, InnerBack, Injective;
    var x := v.list[0];
    var b := x.unIndex;
    assert x in v.list;
    assert Walks(t.heads[b], t.next, v.chains[b]) && ChainOfBucket(v, b);
    var h := v.chains[b][0];
    assert h in v.chains[b];
    var j :| 0 <= j < |v.list| && v.list[j] == h;
    assert IsHead(t, v.list[j]);
  }

  lemma PushInner<K, V>(links: map<Item<K, V>, Item?<K, V>>, s: seq<Item<K, V>>, item: Item<K, V>, f: Item?<K, V>)
    requires InnerBack(links, s) && Injective(s) && item !in s && (f != null ==> f !in s || f == s[0])
    ensures var l := if s != [] then links[item := null][s[0] := item] else links[item := null];
      InnerBack(if f != null then l[f := item] else l, [item] + s)
  {
    var r := [item] + s;
    assert forall i :: 0 < i < |r| ==> r[i] == s[i - 1];
  }

  lemma OtherInner<K, V>(links: map<Item<K, V>, Item?<K, V>>, s: seq<Item<K, V>>, item: Item<K, V>, h: Item?<K, V>,
      f: Item?<K, V>)
    requires InnerBack(links, s) && Injective(s) && item !in s
    requires (f != null ==> f !in s || f == s[0]) && (h != null ==> h !in s)
    ensures var l := if h != null then links[item := null][h := item] else links[item := null];
      InnerBack(if f != null then l[f := item] else l, s)
  {
  }

  lemma FirstInChain<K, V>(t: Links<K, V>, v: View<K, V>, b: nat, hash: K -> nat)
    requires Core(t, v, hash) && BackAsWritten(t, v) && b < HASH_SIZE && t.first != null
    ensures t.first !in v.chains[b] || t.first == v.chains[b][0]
  {
    FirstIsHead(t, v, hash);
    hide Owned, Spells, Keyed, Allocated, Injective, BackAsWritten;
    assert Walks(t.heads[b], t.next, v.chains[b]) && ChainOfBucket(v, b);
  }

  /** As written, insertion keeps what BackAsWritten says about the back links. */
  lemma WrittenInsertKeepsBack<K, V>(t: Links<K, V>, v: View<K, V>, item: Item<K, V>, value: V, hash: K -> nat)
    requires Insertable(t, v, item, hash) && BackAsWritten(t, v)
    ensures BackAsWritten(Insert(t, item, value, false), Pushed(v, item, value))
  {
    hide Core, Walks, InnerBack, Injective;
    var idx := item.unIndex;
    BucketFacts(t, v, idx, item, idx, hash);
    var t', v' := Insert(t, item, value, false), Pushed(v, item, value);
    forall b | 0 <= b < HASH_SIZE ensures InnerBack(t'.prev, v'.chains[b]) {
      BucketFacts(t, v, b, item, idx, hash);
      if t.first != null { FirstInChain(t, v, b, hash); }
      if b == idx {
        PushInner(t.prev, v.chains[b], item, t.first);
      } else {
        OtherInner(t.prev, v.chains[b], item, t.heads[idx], t.first);
      }
    }
    assert forall x :: x in v'.list ==> x == item || x in v.list;
    assert v'.list[1..] == v.list;
    forall j | 0 <= j < |v'.list| && IsHead(t', v'.list[j]) ensures HeadAsWritten(t'.prev, v'.list, j) {
      WrittenInsertHead(t, v, item, value, j);
    }
  }

  lemma WrittenInsertHead<K, V>(t: Links<K, V>, v: View<K, V>, item: Item<K, V>, value: V, j: nat)
    requires item.unIndex < |t.heads| && item !in v.list && t.first == At(v.list, 0) && j <= |v.list|
    requires var h := t.heads[item.unIndex]; h != item && (h != null ==> h.unIndex == item.unIndex)
    requires Injective(v.list)
    requires var t' := Insert(t, item, value, false); IsHead(t', ([item] + v.list)[j])
    requires j > 0 && IsHead(t, v.list[j - 1]) ==> HeadAsWritten(t.prev, v.list, j - 1)
    ensures HeadAsWritten(Insert(t, item, value, false).prev, [item] + v.list, j)
  {
    var list := [item] + v.list;
    if j > 0 {
      var y := v.list[j - 1];
      assert y in v.list && list[j] == y && IsHead(t, y) && y.unIndex != item.unIndex;
      assert forall i :: 0 < i < j ==> list[i] == v.list[i - 1];
      if j > 1 {
        assert y != v.list[0] && list[j - 1] == v.list[j - 2];
      }
    }
  }

  // ---- removal ------------------------------------------------------------------------------

  /** The write `from->link = to` to an item that is still there. */
  ghost function Relink<K, V>(links: map<Item<K, V>, Item?<K, V>>, from: Item?<K, V>, to: Item?<K, V>)
      : map<Item<K, V>, Item?<K, V>>
  {
    if from != null && from in links then links[from := to] else links
  }

  /** Lines 119-127, in order. A link that leaves the table is not followed. */
  ghost function Unlink<K, V>(t: Links<K, V>, x: Item<K, V>): (r: Links<K, V>)
    requires x.unIndex < |t.heads| && x in t.next && x in t.prev && x in t.nextL && x in t.prevL
    ensures |r.heads| == |t.heads|
  {
    var n, p, nl, pl := t.next[x], t.prev[x], t.nextL[x], t.prevL[x];
    Links(if t.heads[x.unIndex] == x then t.heads[x.unIndex := n] else t.heads,
          if t.first == x then nl else t.first,
          Relink(t.next, p, n) - {x},
          Relink(t.prev, n, p) - {x},
          Relink(t.nextL, pl, nl) - {x},
          Relink(t.prevL, nl, pl) - {x},
          t.data - {x})
  }

  ghost function Cut<T>(s: seq<T>, i: nat): seq<T>
    requires i < |s|
  {
    s[..i] + s[i + 1..]
  }

  /** The view without x, which sits at position i of its chain and j of the list. */
  ghost function Dropped<K, V>(v: View<K, V>, x: Item<K, V>, i: nat, j: nat): View<K, V>
    requires x.unIndex < |v.chains| && i < |v.chains[x.unIndex]| && j < |v.list|
  {
    View(v.chains[x.unIndex := Cut(v.chains[x.unIndex], i)], Cut(v.list, j), v.contents - {x.first})
  }

  ghost predicate Located<K, V>(t: Links<K, V>, v: View<K, V>, x: Item<K, V>, i: nat, j: nat) {
    && x.unIndex < |v.chains| && i < |v.chains[x.unIndex]| && j < |v.list|
    && v.chains[x.unIndex][i] == x && v.list[j] == x
    && x.unIndex < |t.heads| && x in t.next && x in t.prev && x in t.nextL && x in t.prevL
  }

  lemma CutMembers<T>(s: seq<T>, i: nat)
    requires i < |s| && Injective(s)
    ensures Injective(Cut(s, i))
    ensures s[i] !in Cut(s, i) && (forall y :: y in Cut(s, i) ==> y in s)
      && (forall y :: y in s && y != s[i] ==> y in Cut(s, i))
    ensures |Cut(s, i)| == |s| - 1
  {
    var r := Cut(s, i);
    forall y | y in s && y != s[i] ensures y in r {
      var k :| 0 <= k < |s| && s[k] == y;
      assert r[if k < i then k else k - 1] == y;
    }
  }

  lemma CutWalks<K, V>(head: Item?<K, V>, links: map<Item<K, V>, Item?<K, V>>, s: seq<Item<K, V>>, i: nat)
    requires Walks(head, links, s) && Injective(s) && i < |s|
    ensures var l := if i > 0 then links[s[i - 1] := At(s, i + 1)] else links;
      Walks(if i == 0 then At(s, 1) else head, l - {s[i]}, Cut(s, i))
  {
    var r := Cut(s, i);
    assert forall k :: 0 <= k < |r| ==> r[k] == if k < i then s[k] else s[k + 1];
  }

  lemma CutBack<K, V>(links: map<Item<K, V>, Item?<K, V>>, s: seq<Item<K, V>>, i: nat)
    requires WalksBack(links, s) && Injective(s) && i < |s|
    ensures var l := if i + 1 < |s| then links[s[i + 1] := At(s, i - 1)] else links;
      WalksBack(l - {s[i]}, Cut(s, i))
  {
    var r := Cut(s, i);
    var l := (if i + 1 < |s| then links[s[i + 1] := At(s, i - 1)] else links) - {s[i]};
    forall k | 0 <= k < |r|
      ensures r[k] in l && l[r[k]] == At(r, k - 1)
    {
      var q := if k < i then k else k + 1;
      assert r[k] == s[q] && s[q] != s[i] && s[q] in links && links[s[q]] == At(s, q - 1);
      if q == i + 1 {
        assert At(r, k - 1) == At(s, i - 1);
      } else {
        assert i + 1 < |s| ==> s[q] != s[i + 1];
        assert At(r, k - 1) == At(s, q - 1);
      }
    }
  }

  /** The links of a sequence that contains neither the removed item nor its neighbour. */
  lemma OtherCut<K, V>(head: Item?<K, V>, links: map<Item<K, V>, Item?<K, V>>, s: seq<Item<K, V>>, x: Item<K, V>,
      p: Item?<K, V>, target: Item?<K, V>)
    requires x !in s && (p != null ==> p !in s)
    ensures Walks(head, links, s) ==> Walks(head, Relink(links, p, target) - {x}, s)
    ensures WalksBack(links, s) ==> WalksBack(Relink(links, p, target) - {x}, s)
  {
  }

  /** Removing from a well-formed table unlinks exactly that item and deletes exactly its key. */
  lemma RemoveKeepsWellFormed<K, V>(t: Links<K, V>, v: View<K, V>, x: Item<K, V>, i: nat, j: nat, hash: K -> nat)
    requires WellFormed(t, v, hash) && Located(t, v, x, i, j)
    ensures WellFormed(Unlink(t, x), Dropped(v, x, i, j), hash)
  {
    hide Walks, WalksBack, Injective, Owned, Unlink, Bucketed, Spells, Keyed, Allocated;
    RemovalFacts(t, v, x, i, j, 0, hash);
    RemoveKeepsChains(t, v, x, i, j, hash);
    RemoveKeepsList(t, v, x, i, j, hash);
    RemoveKeepsMap(t, v, x, i, j, hash);
  }

  /** What a well-formed table says about the chain of x, about bucket b, and about the list. */
  lemma RemovalFacts<K, V>(t: Links<K, V>, v: View<K, V>, x: Item<K, V>, i: nat, j: nat, b: nat, hash: K -> nat)
    requires WellFormed(t, v, hash) && Located(t, v, x, i, j) && b < HASH_SIZE
    ensures |t.heads| == |v.chains| == HASH_SIZE
    ensures Walks(t.heads[b], t.next, v.chains[b]) && WalksBack(t.prev, v.chains[b]) && ChainOfBucket(v, b)
    ensures t.next[x] == At(v.chains[x.unIndex], i + 1) && t.prev[x] == At(v.chains[x.unIndex], i - 1)
    ensures t.heads[x.unIndex] == x <==> i == 0
    ensures t.next[x] != null ==> t.next[x] in t.prev && t.next[x].unIndex == x.unIndex
    ensures t.prev[x] != null ==> t.prev[x] in t.next && t.prev[x].unIndex == x.unIndex
  {
    hide Owned, Spells, Keyed;
    var s := v.chains[x.unIndex];
    assert Walks(t.heads[b], t.next, v.chains[b]) && WalksBack(t.prev, v.chains[b]) && ChainOfBucket(v, b);
    assert Walks(t.heads[x.unIndex], t.next, s) && WalksBack(t.prev, s) && ChainOfBucket(v, x.unIndex);
    if i + 1 < |s| { assert s[i + 1] in s; }
    if i > 0 { assert s[i - 1] in s; }
  }

  lemma ListFacts<K, V>(t: Links<K, V>, v: View<K, V>, x: Item<K, V>, i: nat, j: nat, hash: K -> nat)
    requires WellFormed(t, v, hash) && Located(t, v, x, i, j)
    ensures Walks(t.first, t.nextL, v.list) && WalksBack(t.prevL, v.list) && Injective(v.list)
    ensures t.nextL[x] == At(v.list, j + 1) && t.prevL[x] == At(v.list, j - 1)
    ensures t.first == x <==> j == 0
    ensures t.nextL[x] != null ==> t.nextL[x] in t.prevL
    ensures t.prevL[x] != null ==> t.prevL[x] in t.nextL
  {
    hide Owned, Spells, ChainsOk, Bucketed, Allocated;
  }

  lemma RemoveKeepsChains<K, V>(t: Links<K, V>, v: View<K, V>, x: Item<K, V>, i: nat, j: nat, hash: K -> nat)
    requires WellFormed(t, v, hash) && Located(t, v, x, i, j)
    ensures var t', v' := Unlink(t, x), Dropped(v, x, i, j);
      ChainsOk(t', v') && forall b :: 0 <= b < HASH_SIZE ==> WalksBack(t'.prev, v'.chains[b])
  {
    hide WellFormed, Walks, WalksBack, Injective;
    var t', v', idx := Unlink(t, x), Dropped(v, x, i, j), x.unIndex;
    RemovalFacts(t, v, x, i, j, 0, hash);
    RemovalFacts(t, v, x, i, j, idx, hash);
    forall b | 0 <= b < HASH_SIZE
      ensures Walks(t'.heads[b], t'.next, v'.chains[b]) && WalksBack(t'.prev, v'.chains[b])
    {
      RemovalFacts(t, v, x, i, j, b, hash);
      if b == idx {
        CutWalks(t.heads[b], t.next, v.chains[b], i);
        CutBack(t.prev, v.chains[b], i);
      } else {
        OtherCut(t.heads[b], t.next, v.chains[b], x, t.prev[x], t.next[x]);
        OtherCut(t.heads[b], t.prev, v.chains[b], x, t.next[x], t.prev[x]);
      }
    }
  }

  lemma RemoveKeepsList<K, V>(t: Links<K, V>, v: View<K, V>, x: Item<K, V>, i: nat, j: nat, hash: K -> nat)
    requires WellFormed(t, v, hash) && Located(t, v, x, i, j)
    ensures var t', v' := Unlink(t, x), Dropped(v, x, i, j); ListOk(t', v') && WalksBack(t'.prevL, v'.list)
  {
    ListFacts(t, v, x, i, j, hash);
    hide WellFormed, Walks, WalksBack, Injective;
    CutWalks(t.first, t.nextL, v.list, j);
    CutBack(t.prevL, v.list, j);
  }

  /** The part of the table that does not depend on the order of the items. */
  lemma RemoveKeepsMap<K, V>(t: Links<K, V>, v: View<K, V>, x: Item<K, V>, i: nat, j: nat, hash: K -> nat)
    requires Core(t, v, hash) && Located(t, v, x, i, j)
    ensures var t', v' := Unlink(t, x), Dropped(v, x, i, j);
      Bucketed(v') && Keyed(v'.list, hash) && Spells(t', v') && Allocated(t', v')
  {
    hide Injective, Owned, Cut;
    assert Injective(v.list) by { hide ChainsOk, ListOk, Bucketed, Spells, Allocated; }
    DroppedBuckets(v, x, i, j);
    CutMembers(v.list, j);
    hide ChainsOk, ListOk, Bucketed;
    CutKeyed(v.list, j, hash) by { hide Spells, Allocated; }
    CutSpells(t, v, x, i, j, hash) by { hide Allocated; }
    CutAllocated(t, v, x, i, j) by { hide Spells, Keyed; }
    hide Spells, Keyed, Allocated, Unlink;
  }

  lemma CutKeyed<K, V>(list: seq<Item<K, V>>, j: nat, hash: K -> nat)
    requires Keyed(list, hash) && j < |list|
    ensures Keyed(Cut(list, j), hash)
  {
    CutMembers(list, j);
    hide Cut, Injective;
  }

  lemma CutSpells<K, V>(t: Links<K, V>, v: View<K, V>, x: Item<K, V>, i: nat, j: nat, hash: K -> nat)
    requires Spells(t, v) && Keyed(v.list, hash) && Located(t, v, x, i, j)
    ensures Spells(Unlink(t, x), Dropped(v, x, i, j))
  {
    hide Owned;
    CutMembers(v.list, j);
    hide Cut, Injective;
    assert v.list[j] in v.list;
    DroppedOwners(v, x, j);
  }

  lemma CutAllocated<K, V>(t: Links<K, V>, v: View<K, V>, x: Item<K, V>, i: nat, j: nat)
    requires Allocated(t, v) && Injective(v.list) && Located(t, v, x, i, j)
    ensures Allocated(Unlink(t, x), Dropped(v, x, i, j))
  {
    CutMembers(v.list, j);
    hide Cut, Injective;
  }

  lemma DroppedOwners<K, V>(v: View<K, V>, x: Item<K, V>, j: nat)
    requires j < |v.list| && v.list[j] == x && Injective(v.list)
    requires forall k :: k in v.contents ==> Owned(v.list, k)
    ensures forall k :: k in v.contents - {x.first} ==> Owned(Cut(v.list, j), k)
  {
    CutMembers(v.list, j);
    hide Cut, Injective;
    forall k | k in v.contents - {x.first} ensures Owned(Cut(v.list, j), k) {
      assert Owned(v.list, k);
      var y :| y in v.list && y.first == k;
      assert y in Cut(v.list, j);
    }
  }

  lemma DroppedBuckets<K, V>(v: View<K, V>, x: Item<K, V>, i: nat, j: nat)
    requires Bucketed(v) && Injective(v.list)
    requires x.unIndex < |v.chains| && i < |v.chains[x.unIndex]| && j < |v.list|
    requires v.chains[x.unIndex][i] == x && v.list[j] == x
    ensures Bucketed(Dropped(v, x, i, j))
  {
    var v' := Dropped(v, x, i, j);
    assert ChainOfBucket(v, x.unIndex);
    CutMembers(v.list, j);
    CutMembers(v.chains[x.unIndex], i);
    hide Injective, Cut;
    forall b | 0 <= b < HASH_SIZE ensures ChainOfBucket(v', b) {
      assert ChainOfBucket(v, b);
    }
  }

  // ---- removal from a table built with line 84 as written -------------------------------------

  ghost function PositionOf<T>(s: seq<T>, x: T): (p: nat)
    requires x in s
    ensures p < |s| && s[p] == x
  {
    var p :| 0 <= p < |s| && s[p] == x;
    p
  }

  /** The chains that remain when x is removed from such a table. If x is the first of its bucket but
      not the most recent item, its bucket's tail is joined behind its list predecessor. */
  ghost function Rejoined<K, V>(v: View<K, V>, x: Item<K, V>, i: nat, j: nat): (r: View<K, V>)
    requires x.unIndex < |v.chains| && i < |v.chains[x.unIndex]| && j < |v.list|
    ensures |r.chains| == |v.chains|
  {
    var d := Dropped(v, x, i, j);
    if i == 0 && j > 0 && v.list[j - 1].unIndex < |v.chains| && v.list[j - 1] in v.chains[v.list[j - 1].unIndex] then
      var y := v.list[j - 1];
      var s := v.chains[y.unIndex];
      d.(chains := d.chains[y.unIndex := s[..PositionOf(s, y) + 1] + v.chains[x.unIndex][1..]])
    else d
  }

  /** The test a caller could make before the call. */
  ghost predicate Harmless<K, V>(t: Links<K, V>, x: Item<K, V>)
    requires x in t.prev
  {
    IsHead(t, x) && t.prev[x] != null && t.prev[x] in t.next ==> t.next[t.prev[x]] == null
  }

  lemma WrittenFacts<K, V>(t: Links<K, V>, v: View<K, V>, x: Item<K, V>, i: nat, j: nat, b: nat, hash: K -> nat)
    requires Core(t, v, hash) && BackAsWritten(t, v) && Located(t, v, x, i, j) && b < HASH_SIZE
    ensures |t.heads| == |v.chains| == HASH_SIZE
    ensures Walks(t.heads[b], t.next, v.chains[b]) && ChainOfBucket(v, b)
    ensures t.next[x] == At(v.chains[x.unIndex], i + 1)
    ensures IsHead(t, x) <==> i == 0
    ensures i > 0 ==> t.prev[x] == v.chains[x.unIndex][i - 1]
    ensures t.prev[x] != null ==> t.prev[x] in t.next
  {
    hide Owned, Spells, Keyed, HeadAsWritten;
    var s := v.chains[x.unIndex];
    assert Walks(t.heads[b], t.next, v.chains[b]) && ChainOfBucket(v, b);
    assert Walks(t.heads[x.unIndex], t.next, s) && InnerBack(t.prev, s) && ChainOfBucket(v, x.unIndex);
    if i > 0 { assert s[i - 1] in s; }
    if i == 0 {
      assert IsHead(t, v.list[j]) && HeadAsWritten(t.prev, v.list, j);
      HeadPredecessor(t.prev, v.list, j);
      if j > 0 { assert v.list[j - 1] in v.list; }
    }
  }

  lemma HeadPredecessor<K, V>(links: map<Item<K, V>, Item?<K, V>>, list: seq<Item<K, V>>, j: nat)
    requires j < |list| && HeadAsWritten(links, list, j)
    ensures list[j] in links && links[list[j]] == At(list, j - 1)
    ensures j > 0 ==> list[j - 1].unIndex != list[j].unIndex
  {
  }

  lemma HeadFacts<K, V>(t: Links<K, V>, v: View<K, V>, x: Item<K, V>, j: nat, hash: K -> nat)
    requires Core(t, v, hash) && BackAsWritten(t, v) && Located(t, v, x, 0, j)
    ensures t.prev[x] == At(v.list, j - 1)
    ensures j > 0 ==> var y := v.list[j - 1];
              y in v.list && y.unIndex != x.unIndex && y.unIndex < HASH_SIZE && y in v.chains[y.unIndex] && y in t.next
  {
    WrittenFacts(t, v, x, 0, j, 0, hash);
    HeadPredecessor(t.prev, v.list, j);
    hide Owned, Spells, Keyed, HeadAsWritten;
    if j > 0 { assert v.list[j - 1] in v.list; }
  }

  lemma JoinWalks<K, V>(head: Item?<K, V>, links: map<Item<K, V>, Item?<K, V>>, s: seq<Item<K, V>>, p: nat,
      h: Item?<K, V>, r: seq<Item<K, V>>, x: Item<K, V>)
    requires Walks(head, links, s) && Injective(s) && p < |s| && Walks(h, links, r)
    requires x !in s && x !in r && s[p] !in r
    ensures Walks(head, links[s[p] := h] - {x}, s[..p + 1] + r)
  {
    var q := s[..p + 1] + r;
    forall k | 0 <= k < |q| ensures q[k] in links[s[p] := h] - {x} && (links[s[p] := h] - {x})[q[k]] == At(q, k + 1) {
      assert q[k] == if k <= p then s[k] else r[k - p - 1];
      if k + 1 < |q| { assert q[k + 1] == if k + 1 <= p then s[k + 1] else r[k - p]; }
    }
  }

  lemma TailWalks<K, V>(head: Item?<K, V>, links: map<Item<K, V>, Item?<K, V>>, s: seq<Item<K, V>>)
    requires Walks(head, links, s) && s != []
    ensures Walks(At(s, 1), links, s[1..])
  {
    assert forall k :: 0 <= k < |s| - 1 ==> s[1..][k] == s[k + 1];
  }

  /** The chains after the removal are exactly those of Rejoined. */
  lemma WrittenRemoveChains<K, V>(t: Links<K, V>, v: View<K, V>, x: Item<K, V>, i: nat, j: nat, hash: K -> nat)
    requires Core(t, v, hash) && BackAsWritten(t, v) && Located(t, v, x, i, j)
    ensures ChainsOk(Unlink(t, x), Rejoined(v, x, i, j))
  {
    hide Core, BackAsWritten, Walks, Injective;
    var t', r, idx := Unlink(t, x), Rejoined(v, x, i, j), x.unIndex;
    WrittenFacts(t, v, x, i, j, 0, hash);
    WrittenFacts(t, v, x, i, j, idx, hash);
    if i == 0 { HeadFacts(t, v, x, j, hash); }
    forall b | 0 <= b < HASH_SIZE ensures Walks(t'.heads[b], t'.next, r.chains[b]) {
      WrittenFacts(t, v, x, i, j, b, hash);
      if i == 0 && j > 0 {
        WrittenRemoveJoins(t, v, x, j, b, hash);
      } else if b == idx {
        CutWalks(t.heads[b], t.next, v.chains[b], i);
      } else {
        if i > 0 { assert v.chains[idx][i - 1] in v.chains[idx]; }
        OtherCut(t.heads[b], t.next, v.chains[b], x, t.prev[x], t.next[x]);
      }
    }
  }

  lemma WrittenRemoveJoins<K, V>(t: Links<K, V>, v: View<K, V>, x: Item<K, V>, j: nat, b: nat, hash: K -> nat)
    requires |t.heads| == |v.chains| == HASH_SIZE && Located(t, v, x, 0, j) && j > 0 && b < HASH_SIZE
    requires Core(t, v, hash) && BackAsWritten(t, v)
    ensures Walks(Unlink(t, x).heads[b], Unlink(t, x).next, Rejoined(v, x, 0, j).chains[b])
  {
    hide Core, BackAsWritten, Walks;
    var idx, y := x.unIndex, v.list[j - 1];
    WrittenFacts(t, v, x, 0, j, b, hash);
    WrittenFacts(t, v, x, 0, j, idx, hash);
    HeadFacts(t, v, x, j, hash);
    var s := v.chains[idx];
    if b == idx {
      assert Cut(s, 0) == s[1..] && y !in s;
      TailWalks(t.heads[b], t.next, s);
      OtherCut(At(s, 1), t.next, s[1..], x, y, t.next[x]);
    } else if b == y.unIndex {
      WrittenFacts(t, v, x, 0, j, y.unIndex, hash);
      TailWalks(t.heads[idx], t.next, s);
      assert x in s && y !in s;
      JoinWalks(t.heads[b], t.next, v.chains[b], PositionOf(v.chains[b], y), t.next[x], s[1..], x);
    } else {
      OtherCut(t.heads[b], t.next, v.chains[b], x, y, t.next[x]);
    }
  }

  /** A walk meets at most one sequence of items. */
  lemma {:induction false} WalkUnique<K, V>(head: Item?<K, V>, links: map<Item<K, V>, Item?<K, V>>,
      a: seq<Item<K, V>>, b: seq<Item<K, V>>)
    requires Walks(head, links, a) && Walks(head, links, b)
    ensures a == b
  {
    if a != [] && b != [] {
      TailWalks(head, links, a);
      TailWalks(head, links, b);
      WalkUnique(At(a, 1), links, a[1..], b[1..]);
      assert a == [a[0]] + a[1..] && b == [b[0]] + b[1..];
    }
  }

  /** As written, after removing x the table still answers every lookup as the map does if and only if
      x passes the test Harmless. */
  lemma WrittenRemoveFindsIff<K(!new), V>(t: Links<K, V>, v: View<K, V>, x: Item<K, V>, i: nat, j: nat,
      after: View<K, V>, hash: K -> nat)
    requires Core(t, v, hash) && BackAsWritten(t, v) && Located(t, v, x, i, j)
    requires ChainsOk(Unlink(t, x), after) && after.contents == v.contents - {x.first}
    ensures FindsExactly(after, hash) <==> Harmless(t, x)
  {
    hide Core, BackAsWritten, Walks, Injective, Unlink, Rejoined, Dropped, Harmless;
    var t', r := Unlink(t, x), Rejoined(v, x, i, j);
    WrittenRemoveChains(t, v, x, i, j, hash);
    forall b | 0 <= b < HASH_SIZE ensures after.chains[b] == r.chains[b] {
      WalkUnique(t'.heads[b], t'.next, after.chains[b], r.chains[b]);
    }
    assert after.chains == r.chains;
    RejoinedFindsIff(t, v, x, i, j, hash);
    RejoinedMembers(t, v, x, i, j, hash);
    assert after.contents == r.contents by { DroppedContents(v, x, i, j); }
  }

  lemma DroppedContents<K, V>(v: View<K, V>, x: Item<K, V>, i: nat, j: nat)
    requires x.unIndex < |v.chains| && i < |v.chains[x.unIndex]| && j < |v.list|
    ensures Dropped(v, x, i, j).contents == v.contents - {x.first}
  {
  }

  lemma RejoinedFindsIff<K(!new), V>(t: Links<K, V>, v: View<K, V>, x: Item<K, V>, i: nat, j: nat, hash: K -> nat)
    requires Core(t, v, hash) && BackAsWritten(t, v) && Located(t, v, x, i, j)
    ensures |Rejoined(v, x, i, j).chains| == HASH_SIZE
    ensures FindsExactly(Rejoined(v, x, i, j), hash) <==> Harmless(t, x)
  {
    hide Core, BackAsWritten, Rejoined, Harmless, Injective, Owned, FindsExactly, Unlink, Cut;
    var t', d, r := Unlink(t, x), Dropped(v, x, i, j), Rejoined(v, x, i, j);
    RejoinedMembers(t, v, x, i, j, hash);
    RemoveKeepsMap(t, v, x, i, j, hash);
    hide Dropped, Bucketed, Allocated;
    FindsExactlyIff(t', r, hash) by { hide Keyed; }
    assert forall z :: z in r.list ==> z.unIndex < HASH_SIZE;
  }

  /** On the rejoined chains there are only live items, and one is missing unless x was Harmless. */
  lemma RejoinedMembers<K, V>(t: Links<K, V>, v: View<K, V>, x: Item<K, V>, i: nat, j: nat, hash: K -> nat)
    requires Core(t, v, hash) && BackAsWritten(t, v) && Located(t, v, x, i, j)
    ensures var r := Rejoined(v, x, i, j);
      && |r.chains| == HASH_SIZE && r.list == Dropped(v, x, i, j).list && r.contents == Dropped(v, x, i, j).contents
      && (forall b, z :: 0 <= b < HASH_SIZE && z in r.chains[b] ==> z in r.list)
      && (Harmless(t, x) <==> forall z :: z in r.list ==> z.unIndex < HASH_SIZE && z in r.chains[z.unIndex])
  {
    hide Core, BackAsWritten, Walks, Injective;
    var d, r, idx := Dropped(v, x, i, j), Rejoined(v, x, i, j), x.unIndex;
    RemoveKeepsMap(t, v, x, i, j, hash);
    WrittenFacts(t, v, x, i, j, idx, hash);
    if i == 0 { HeadFacts(t, v, x, j, hash); }
    if i == 0 && j > 0 {
      RejoinedLoses(t, v, x, j, hash);
    } else {
      forall b, z | 0 <= b < HASH_SIZE && z in r.chains[b] ensures z in r.list {
        assert ChainOfBucket(d, b);
      }
    }
  }

  lemma RejoinedLoses<K, V>(t: Links<K, V>, v: View<K, V>, x: Item<K, V>, j: nat, hash: K -> nat)
    requires Core(t, v, hash) && BackAsWritten(t, v) && Located(t, v, x, 0, j) && j > 0
    ensures var r := Rejoined(v, x, 0, j);
      && |r.chains| == HASH_SIZE
      && (forall b, z :: 0 <= b < HASH_SIZE && z in r.chains[b] ==> z in r.list)
      && (Harmless(t, x) <==> forall z :: z in r.list ==> z.unIndex < HASH_SIZE && z in r.chains[z.unIndex])
  {
    hide Core, BackAsWritten, Walks;
    var d, r, idx, y := Dropped(v, x, 0, j), Rejoined(v, x, 0, j), x.unIndex, v.list[j - 1];
    RemoveKeepsMap(t, v, x, 0, j, hash);
    WrittenFacts(t, v, x, 0, j, idx, hash);
    HeadFacts(t, v, x, j, hash);
    WrittenFacts(t, v, x, 0, j, y.unIndex, hash);
    var s, tail := v.chains[y.unIndex], v.chains[idx][1..];
    var p := PositionOf(s, y);
    NextOnChain(t.heads[y.unIndex], t.next, s, p);
    assert d.chains[y.unIndex] == s && d.chains[idx] == tail;
    assert ChainOfBucket(d, y.unIndex) && ChainOfBucket(d, idx);
    forall b, z | 0 <= b < HASH_SIZE && z in r.chains[b] ensures z in r.list {
      assert ChainOfBucket(d, b);
    }
    if p + 1 < |s| {
      var z := s[p + 1];
      assert z in s && z in d.list && z.unIndex == y.unIndex;
      assert z !in s[..p + 1] && z !in tail;
    } else {
      assert s[..p + 1] == s;
    }
  }

  lemma NextOnChain<K, V>(head: Item?<K, V>, links: map<Item<K, V>, Item?<K, V>>, s: seq<Item<K, V>>, p: nat)
    requires Walks(head, links, s) && p < |s|
    ensures s[p] in links && links[s[p]] == At(s, p + 1)
  {
  }

  /** As written, after removing x the walk from the first item meets exactly the remaining live items
      if and only if x was the first item; otherwise it runs into the removed one. */
  lemma WrittenRemoveListIff<K, V>(t: Links<K, V>, v: View<K, V>, x: Item<K, V>, i: nat, j: nat, hash: K -> nat)
    requires Core(t, v, hash) && BackAsWritten(t, v) && Located(t, v, x, i, j)
    ensures ListOk(Unlink(t, x), Dropped(v, x, i, j)) <==> t.first == x
    ensures t.first != x ==> exists y :: y in v.list && y != x && y in Unlink(t, x).nextL && Unlink(t, x).nextL[y] == x
  {
    hide ChainsOk, Bucketed, Spells, Owned, InnerBack, HeadAsWritten;
    var t' := Unlink(t, x);
    var r := Cut(v.list, j);
    assert x in v.list && Injective(v.list);
    if j == 0 {
      CutWalks(t.first, t.nextL, v.list, 0);
    } else {
      var y := v.list[j - 1];
      assert y in v.list && t'.nextL[y] == x;
      CutMembers(v.list, j);
      assert r[j - 1] == y;
      assert At(r, j) != x;
    }
  }

  // ---- removals that leave nothing behind --------------------------------------------------------

  /** The test a caller could make before the call: x is the newest item, and the next newest, if there
      is one, is in the same bucket. */
  ghost predicate SafeToRemove<K, V>(t: Links<K, V>, x: Item<K, V>)
    requires x in t.nextL
  {
    t.first == x && (t.nextL[x] == null || t.nextL[x].unIndex == x.unIndex)
  }

  /** Some live item still has a link to x. */
  ghost predicate LinkedFrom<K, V>(t: Links<K, V>, y: Item<K, V>, x: Item<K, V>) {
    && y in t.data && y in t.next && y in t.prev && y in t.nextL && y in t.prevL
    && (t.next[y] == x || t.prev[y] == x || t.nextL[y] == x || t.prevL[y] == x)
  }

  ghost predicate Dangling<K, V>(t: Links<K, V>, x: Item<K, V>) {
    exists y :: y in t.data && LinkedFrom(t, y, x)
  }

  /** Where the back link of a live item leads in a table built as written. */
  lemma WrittenPrev<K, V>(t: Links<K, V>, v: View<K, V>, y: Item<K, V>, hash: K -> nat)
    requires Core(t, v, hash) && BackAsWritten(t, v) && y in v.list
    ensures y in t.data && y in t.next && y in t.prev && y in t.nextL && y in t.prevL && t.prevL[y] == null
    ensures t.prev[y] != null ==> t.prev[y] in v.list
    ensures t.next[y] != null ==> t.next[y] in v.list && t.next[y].unIndex == y.unIndex
    ensures t.nextL[y] != null ==> t.nextL[y] in v.list
  {
    hide Owned, Spells, Keyed, InnerBack, HeadAsWritten, OfBucket;
    var b := y.unIndex;
    var s := v.chains[b];
    var p :| 0 <= p < |s| && s[p] == y;
    var j :| 0 <= j < |v.list| && v.list[j] == y;
    assert Walks(t.heads[b], t.next, s) && ChainOfBucket(v, b);
    NextOnChain(t.heads[b], t.next, s, p);
    NextOnChain(t.first, t.nextL, v.list, j);
    if p > 0 {
      assert InnerBack(t.prev, s);
      InnerPrev(t.prev, s, p);
      assert s[p - 1] in s;
    } else {
      assert IsHead(t, v.list[j]);
      HeadPredecessor(t.prev, v.list, j);
    }
  }

  lemma InnerPrev<K, V>(links: map<Item<K, V>, Item?<K, V>>, s: seq<Item<K, V>>, p: nat)
    requires InnerBack(links, s) && 0 < p < |s|
    ensures s[p] in links && links[s[p]] == s[p - 1]
  {
  }

  /** In a table built as written live items link to live items only. */
  lemma WrittenIsClean<K, V>(t: Links<K, V>, v: View<K, V>, x: Item<K, V>, hash: K -> nat)
    requires Core(t, v, hash) && BackAsWritten(t, v) && x !in t.data
    ensures !Dangling(t, x)
  {
    hide Owned, Spells, Keyed, ChainsOk, ListOk, Bucketed, BackAsWritten;
    forall y | y in t.data
      ensures !LinkedFrom(t, y, x)
    {
      WrittenPrev(t, v, y, hash);
    }
  }

  /** The second newest item, when it is in another bucket, leads it and points back at the newest. */
  lemma SecondPointsBack<K, V>(t: Links<K, V>, v: View<K, V>, hash: K -> nat)
    requires Core(t, v, hash) && BackAsWritten(t, v) && |v.list| > 1 && v.list[1].unIndex != v.list[0].unIndex
    ensures v.list[1] in t.prev && t.prev[v.list[1]] == v.list[0]
  {
    hide Owned, Spells, Keyed, Allocated, InnerBack;
    var y := v.list[1];
    var b := y.unIndex;
    assert y in v.list;
    assert Walks(t.heads[b], t.next, v.chains[b]);
    assert OfBucket(v.list, b)[0] == y by { assert v.list[1..][0] == y; }
    assert IsHead(t, v.list[1]);
  }

  /** The newest item is the first of its chain. */
  lemma NewestFacts<K, V>(t: Links<K, V>, v: View<K, V>, x: Item<K, V>, i: nat, j: nat, hash: K -> nat)
    requires Core(t, v, hash) && BackAsWritten(t, v) && Located(t, v, x, i, j) && t.first == x
    ensures i == 0 && j == 0 && t.prev[x] == null && Injective(v.list) && t.nextL[x] == At(v.list, 1)
  {
    hide Owned, Spells, Allocated, InnerBack, OfBucket, ChainsOk, Bucketed;
    FirstIsHead(t, v, hash);
    WrittenFacts(t, v, x, i, j, 0, hash);
    HeadFacts(t, v, x, j, hash);
  }

  lemma SafeRemoveHeads<K, V>(t: Links<K, V>, v: View<K, V>, x: Item<K, V>, k: nat, hash: K -> nat)
    requires Core(t, v, hash) && BackAsWritten(t, v) && Located(t, v, x, 0, 0) && SafeToRemove(t, x)
    requires k + 1 < |v.list| && IsHead(Unlink(t, x), v.list[k + 1])
    ensures HeadAsWritten(Unlink(t, x).prev, v.list[1..], k)
  {
    hide Owned, Spells, Keyed, Allocated, InnerBack, HeadAsWritten, Bucketed;
    NewestFacts(t, v, x, 0, 0, hash);
    WrittenFacts(t, v, x, 0, 0, x.unIndex, hash);
    var y, idx := v.list[k + 1], x.unIndex;
    assert y in v.list && v.list[1] in v.list;
    WrittenPrev(t, v, y, hash);
    if y.unIndex == idx {
      assert OfBucket(v.list, idx)[1..] == OfBucket(v.list[1..], idx);
      assert OfBucket(v.list[1..], idx)[0] == v.list[1] by { assert v.list[1..][0] == v.list[1]; }
      assert t.next[x] == v.list[1] && y == v.list[1];
      NewHead(Unlink(t, x).prev, v.list[1..]);
    } else {
      assert IsHead(t, v.list[k + 1]);
      assert HeadAsWritten(t.prev, v.list, k + 1);
      ShiftHead(t.prev, Unlink(t, x).prev, v.list, k);
    }
  }

  lemma ShiftHead<K, V>(links: map<Item<K, V>, Item?<K, V>>, after: map<Item<K, V>, Item?<K, V>>,
      list: seq<Item<K, V>>, k: nat)
    requires 0 < k < |list| - 1 && HeadAsWritten(links, list, k + 1)
    requires list[k + 1] in after && after[list[k + 1]] == links[list[k + 1]]
    ensures HeadAsWritten(after, list[1..], k)
  {
  }

  lemma NewHead<K, V>(links: map<Item<K, V>, Item?<K, V>>, list: seq<Item<K, V>>)
    requires list != [] && list[0] in links && links[list[0]] == null
    ensures HeadAsWritten(links, list, 0)
  {
  }

  lemma ChainFacts<K, V>(t: Links<K, V>, v: View<K, V>, b: nat)
    requires BackAsWritten(t, v) && b < |v.chains|
    ensures InnerBack(t.prev, v.chains[b]) && v.chains[b] == OfBucket(v.list, b)
  {
  }

  lemma SafeRemoveChains<K, V>(t: Links<K, V>, v: View<K, V>, x: Item<K, V>, b: nat, hash: K -> nat)
    requires Core(t, v, hash) && BackAsWritten(t, v) && Located(t, v, x, 0, 0) && SafeToRemove(t, x) && b < HASH_SIZE
    ensures var t', v' := Unlink(t, x), Dropped(v, x, 0, 0);
      InnerBack(t'.prev, v'.chains[b]) && v'.chains[b] == OfBucket(v'.list, b)
  {
    hide Core, BackAsWritten, Walks, InnerBack, Injective, OfBucket, Relink;
    WrittenFacts(t, v, x, 0, 0, b, hash);
    WrittenFacts(t, v, x, 0, 0, x.unIndex, hash);
    NewestFacts(t, v, x, 0, 0, hash);
    ChainFacts(t, v, b);
    OfBucketTail(v.list, b);
    var s := v.chains[b];
    if b == x.unIndex {
      assert Cut(s, 0) == s[1..];
      TailInner(t.prev, s);
    } else {
      OtherCutInner(t.prev, s, x, t.next[x]);
    }
  }

  lemma OfBucketTail<K, V>(list: seq<Item<K, V>>, b: nat)
    requires list != []
    ensures Cut(list, 0) == list[1..]
    ensures list[0].unIndex != b ==> OfBucket(list[1..], b) == OfBucket(list, b)
    ensures list[0].unIndex == b ==> OfBucket(list, b) != [] && OfBucket(list[1..], b) == OfBucket(list, b)[1..]
  {
  }

  lemma TailInner<K, V>(links: map<Item<K, V>, Item?<K, V>>, s: seq<Item<K, V>>)
    requires InnerBack(links, s) && Injective(s) && s != []
    ensures InnerBack(Relink(links, At(s, 1), null) - {s[0]}, s[1..])
  {
  }

  lemma OtherCutInner<K, V>(links: map<Item<K, V>, Item?<K, V>>, s: seq<Item<K, V>>, x: Item<K, V>, n: Item?<K, V>)
    requires InnerBack(links, s) && x !in s && (n != null ==> n !in s)
    ensures InnerBack(Relink(links, n, null) - {x}, s)
  {
  }

  /** A removal that passes the test takes a table built as written to another such table, in which
      exactly that item and its key are gone. */
  lemma SafeRemoveKeepsWritten<K, V>(t: Links<K, V>, v: View<K, V>, x: Item<K, V>, i: nat, j: nat, hash: K -> nat)
    requires Core(t, v, hash) && BackAsWritten(t, v) && Located(t, v, x, i, j) && SafeToRemove(t, x)
    ensures i == 0 && j == 0 && Rejoined(v, x, i, j) == Dropped(v, x, i, j)
    ensures Core(Unlink(t, x), Dropped(v, x, i, j), hash) && BackAsWritten(Unlink(t, x), Dropped(v, x, i, j))
  {
    hide Walks, InnerBack, Injective, Owned, Unlink, Bucketed, Spells, Keyed, Allocated, HeadAsWritten, OfBucket;
    NewestFacts(t, v, x, i, j, hash);
    WrittenRemoveChains(t, v, x, i, j, hash);
    WrittenRemoveListIff(t, v, x, i, j, hash);
    RemoveKeepsMap(t, v, x, i, j, hash);
    var t', v' := Unlink(t, x), Dropped(v, x, 0, 0);
    assert Core(t', v', hash);
    assert BackAsWritten(t', v') by { SafeRemoveBack(t, v, x, hash); }
  }

  lemma SafeRemoveBack<K, V>(t: Links<K, V>, v: View<K, V>, x: Item<K, V>, hash: K -> nat)
    requires Core(t, v, hash) && BackAsWritten(t, v) && Located(t, v, x, 0, 0) && SafeToRemove(t, x)
    ensures BackAsWritten(Unlink(t, x), Dropped(v, x, 0, 0))
  {
    hide Core, InnerBack, HeadAsWritten, OfBucket;
    var t', v' := Unlink(t, x), Dropped(v, x, 0, 0);
    WrittenFacts(t, v, x, 0, 0, 0, hash);
    NewestFacts(t, v, x, 0, 0, hash);
    assert v'.list == v.list[1..];
    forall b | 0 <= b < HASH_SIZE
      ensures InnerBack(t'.prev, v'.chains[b]) && v'.chains[b] == OfBucket(v'.list, b)
    {
      SafeRemoveChains(t, v, x, b, hash);
    }
    forall k | 0 <= k < |v'.list| && IsHead(t', v'.list[k])
      ensures HeadAsWritten(t'.prev, v'.list, k)
    {
      SafeRemoveHeads(t, v, x, k, hash);
    }
    forall y | y in v'.list
      ensures y in t'.prevL && t'.prevL[y] == null
    {
      assert y in v.list && y != x;
    }
  }

  /** As written, after removing x no live item links to the freed x if and only if x passed the test. */
  lemma WrittenRemoveCleanIff<K, V>(t: Links<K, V>, v: View<K, V>, x: Item<K, V>, i: nat, j: nat, hash: K -> nat)
    requires Core(t, v, hash) && BackAsWritten(t, v) && Located(t, v, x, i, j)
    ensures !Dangling(Unlink(t, x), x) <==> SafeToRemove(t, x)
  {
    hide Core, BackAsWritten, Injective, Dangling;
    if SafeToRemove(t, x) {
      SafeRemoveKeepsWritten(t, v, x, i, j, hash);
      WrittenIsClean(Unlink(t, x), Dropped(v, x, i, j), x, hash);
    } else {
      UnsafeRemoveDangles(t, v, x, i, j, hash);
    }
  }

  lemma UnsafeRemoveDangles<K, V>(t: Links<K, V>, v: View<K, V>, x: Item<K, V>, i: nat, j: nat, hash: K -> nat)
    requires Core(t, v, hash) && BackAsWritten(t, v) && Located(t, v, x, i, j) && !SafeToRemove(t, x)
    ensures Dangling(Unlink(t, x), x)
  {
    hide Core, BackAsWritten, Walks, Injective;
    var t' := Unlink(t, x);
    if t.first == x {
      NewestFacts(t, v, x, i, j, hash);
      SecondPointsBack(t, v, hash);
      var y := v.list[1];
      assert y in v.list && y != x;
      WrittenPrev(t, v, y, hash);
      WrittenPrev(t, v, x, hash);
      assert LinkedFrom(t', y, x);
    } else {
      WrittenRemoveListIff(t, v, x, i, j, hash);
      var y :| y in v.list && y != x && y in t'.nextL && t'.nextL[y] == x;
      WrittenPrev(t, v, y, hash);
      assert LinkedFrom(t', y, x);
    }
  }

  /** Equivalently, the table can still be read as one built as written. */
  lemma WrittenRemoveStaysIff<K, V>(t: Links<K, V>, v: View<K, V>, x: Item<K, V>, i: nat, j: nat, hash: K -> nat)
    requires Core(t, v, hash) && BackAsWritten(t, v) && Located(t, v, x, i, j)
    ensures (exists after :: Core(Unlink(t, x), after, hash) && BackAsWritten(Unlink(t, x), after)) <==>
        SafeToRemove(t, x)
  {
    hide Core, BackAsWritten, Injective, Dangling;
    WrittenRemoveCleanIff(t, v, x, i, j, hash);
    if SafeToRemove(t, x) {
      SafeRemoveKeepsWritten(t, v, x, i, j, hash);
    }
    if after :| Core(Unlink(t, x), after, hash) && BackAsWritten(Unlink(t, x), after) {
      WrittenIsClean(Unlink(t, x), after, x, hash);
    }
  }
}
