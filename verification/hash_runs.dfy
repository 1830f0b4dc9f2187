/** Whole runs of HashItemsByPtr with line 84 as written: which of them keep memory clean, and what
    lookups then answer. */
module HashRuns {
  import opened HashLinks

  /** An item that has been allocated for its key is added, or an item is removed. */
  datatype TableOp<K, V> = Add(item: Item<K, V>, value: V) | Remove(item: Item<K, V>)

  ghost function EmptyLinks<K, V>(): Links<K, V> {
    Links(seq(HASH_SIZE, _ => null), null, map[], map[], map[], map[], map[])
  }

  ghost function Apply<K, V>(t: Links<K, V>, op: TableOp<K, V>): Links<K, V> {
    var x := op.item;
    if x.unIndex >= |t.heads| then t
    else
      match op
      case Add(_, value) => Insert(t, x, value, false)
      case Remove(_) => if x in t.next && x in t.prev && x in t.nextL && x in t.prevL then Unlink(t, x) else t
  }

  /** The pointers after a run, whatever has become of them. */
  ghost function LinksAfter<K, V>(ops: seq<TableOp<K, V>>): Links<K, V> {
    if ops == [] then EmptyLinks() else Apply(LinksAfter(ops[..|ops| - 1]), ops[|ops| - 1])
  }

  /** The map that the table should be. */
  ghost function MapAfter<K, V>(ops: seq<TableOp<K, V>>): map<K, V> {
    if ops == [] then map[]
    else
      var m := MapAfter(ops[..|ops| - 1]);
      match ops[|ops| - 1]
      case Add(item, value) => m[item.first := value]
      case Remove(item) => m - {item.first}
  }

  /** What callers of the table see to: only new keys are added, with the index that find computed, and
      only items of the table are removed. */
  ghost predicate LegalRun<K, V>(ops: seq<TableOp<K, V>>, hash: K -> nat) {
    ops != [] ==>
      var before, last := ops[..|ops| - 1], ops[|ops| - 1];
      && LegalRun(before, hash)
      && match last
         case Add(item, _) =>
           item !in LinksAfter(before).data && item.unIndex == hash(item.first) % HASH_SIZE
             && item.first !in MapAfter(before)
         case Remove(item) => item in LinksAfter(before).data
  }

  ghost predicate PassesTest<K, V>(t: Links<K, V>, x: Item<K, V>) {
    x in t.nextL && SafeToRemove(t, x)
  }

  /** Every removal of the run passes the test at its time. */
  ghost predicate SafeRun<K, V>(ops: seq<TableOp<K, V>>) {
    ops != [] ==>
      var before, last := ops[..|ops| - 1], ops[|ops| - 1];
      SafeRun(before) && (last.Remove? ==> PassesTest(LinksAfter(before), last.item))
  }

  /** No removal of the run leaves a live item with a link to the freed one. */
  ghost predicate CleanRun<K, V>(ops: seq<TableOp<K, V>>) {
    ops != [] ==>
      var before, last := ops[..|ops| - 1], ops[|ops| - 1];
      CleanRun(before) && (last.Remove? ==> !Dangling(LinksAfter(ops), last.item))
  }

  /** After a run whose removals pass the test, the pointers are those of a table built as written, and
      every lookup answers as the map does. */
  lemma {:induction false} SafeRunAgrees<K(!new), V>(ops: seq<TableOp<K, V>>, hash: K -> nat) returns (v: View<K, V>)
    requires LegalRun(ops, hash) && SafeRun(ops)
    ensures Core(LinksAfter(ops), v, hash) && BackAsWritten(LinksAfter(ops), v)
    ensures v.contents == MapAfter(ops)
    ensures |v.chains| == HASH_SIZE && ChainsOk(LinksAfter(ops), v) && FindsExactly(v, hash)
  {
    if ops == [] {
      v := View(seq(HASH_SIZE, _ => []), [], map[]);
    } else {
      var before, last := ops[..|ops| - 1], ops[|ops| - 1];
      var w := SafeRunAgrees(before, hash);
      v := StepAgrees(LinksAfter(before), w, last, hash);
    }
    CoreFindsExactly(LinksAfter(ops), v, hash);
  }

  lemma StepAgrees<K, V>(t: Links<K, V>, w: View<K, V>, op: TableOp<K, V>, hash: K -> nat) returns (v: View<K, V>)
    requires Core(t, w, hash) && BackAsWritten(t, w)
    requires op.Add? ==> Insertable(t, w, op.item, hash)
    requires op.Remove? ==> op.item in t.data && PassesTest(t, op.item)
    ensures Core(Apply(t, op), v, hash) && BackAsWritten(Apply(t, op), v)
    ensures v.contents == if op.Add? then w.contents[op.item.first := op.value] else w.contents - {op.item.first}
  {
    hide Core, BackAsWritten, Insert, Unlink;
    var x := op.item;
    Buckets(t, w, hash);
    if op.Add? {
      v := Pushed(w, x, op.value);
      InsertKeepsCore(t, w, x, op.value, false, hash);
      WrittenInsertKeepsBack(t, w, x, op.value, hash);
    } else {
      var i, j := Locate(t, w, x, hash);
      SafeRemoveKeepsWritten(t, w, x, i, j, hash);
      v := Dropped(w, x, i, j);
    }
  }

  lemma Buckets<K, V>(t: Links<K, V>, v: View<K, V>, hash: K -> nat)
    requires Core(t, v, hash)
    ensures |t.heads| == |v.chains| == HASH_SIZE
  {
  }

  lemma Locate<K, V>(t: Links<K, V>, v: View<K, V>, x: Item<K, V>, hash: K -> nat) returns (i: nat, j: nat)
    requires Core(t, v, hash) && x in t.data
    ensures Located(t, v, x, i, j)
  {
    hide Owned, Spells, Keyed;
    i := PositionOf(v.chains[x.unIndex], x);
    j := PositionOf(v.list, x);
  }

  lemma CoreFindsExactly<K(!new), V>(t: Links<K, V>, v: View<K, V>, hash: K -> nat)
    requires Core(t, v, hash)
    ensures |v.chains| == HASH_SIZE && ChainsOk(t, v) && FindsExactly(v, hash)
  {
    hide ChainsOk, ListOk, Keyed, Spells, Allocated, FindsExactly;
    forall b, x | 0 <= b < HASH_SIZE && x in v.chains[b]
      ensures x in v.list
    {
      assert ChainOfBucket(v, b);
    }
    FindsExactlyIff(t, v, hash);
  }

  /** A run keeps memory clean throughout if and only if every removal passes the test. */
  lemma {:induction false} CleanIffSafe<K(!new), V>(ops: seq<TableOp<K, V>>, hash: K -> nat)
    requires LegalRun(ops, hash)
    ensures CleanRun(ops) <==> SafeRun(ops)
  {
    hide Unlink, Dangling;
    if ops != [] {
      var before, last := ops[..|ops| - 1], ops[|ops| - 1];
      CleanIffSafe(before, hash);
      if SafeRun(before) && last.Remove? {
        var v := SafeRunAgrees(before, hash);
        Buckets(LinksAfter(before), v, hash);
        var i, j := Locate(LinksAfter(before), v, last.item, hash);
        WrittenRemoveCleanIff(LinksAfter(before), v, last.item, i, j, hash);
      }
    }
  }
}
