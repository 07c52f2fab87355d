/** RocksDB as a finite map from byte strings, read in lexicographic order. */
module RawDb {
  import opened Bytes

  type Store = map<ByteString, ByteString>
  datatype Pair = Pair(key: ByteString, value: ByteString)

  predicate Sorted(items: seq<Pair>) {
    forall i, j {:trigger Less(items[i].key, items[j].key)} ::
      0 <= i < j < |items| ==> Less(items[i].key, items[j].key)
  }

  /** `items` is what an iterator positioned at `seek` returns, to the end of the store. */
  ghost predicate ListsFrom(store: Store, seek: ByteString, items: seq<Pair>) {
    && Sorted(items)
    && (forall i :: 0 <= i < |items| ==>
          items[i].key in store && store[items[i].key] == items[i].value && AtMost(seek, items[i].key))
    && (forall s :: s in store && AtMost(seek, s) ==> exists i :: 0 <= i < |items| && items[i].key == s)
  }

  /** `iterator_cf_opt(.., IteratorMode::From(seek, Forward))`. */
  method IteratorFrom(store: Store, seek: ByteString) returns (items: seq<Pair>)
    ensures ListsFrom(store, seek, items)
  {
    var todo := store.Keys;
    items := [];
    while todo != {}
      invariant todo <= store.Keys
      invariant Sorted(items)
      invariant forall i :: 0 <= i < |items| ==>
                  items[i].key in store && items[i].key !in todo && store[items[i].key] == items[i].value
                  && AtMost(seek, items[i].key)
      invariant forall s :: s in store && s !in todo && AtMost(seek, s) ==>
                  exists i :: 0 <= i < |items| && items[i].key == s
    {
      var k :| k in todo;
      todo := todo - {k};
      if AtMost(seek, k) {
        ghost var before := items;
        items := Insert(items, Pair(k, store[k]));
        forall s | s in store && s !in todo && AtMost(seek, s)
          ensures exists i :: 0 <= i < |items| && items[i].key == s
        {
          if s != k {
            var i :| 0 <= i < |before| && before[i].key == s;
            assert before[i] in before;
          }
        }
      }
    }
  }

  method Insert(items: seq<Pair>, p: Pair) returns (r: seq<Pair>)
    requires Sorted(items)
    requires forall i :: 0 <= i < |items| ==> items[i].key != p.key
    ensures Sorted(r)
    ensures forall i :: 0 <= i < |r| ==> r[i] == p || r[i] in items
    ensures exists i :: 0 <= i < |r| && r[i] == p
    ensures forall q :: q in items ==> exists i :: 0 <= i < |r| && r[i] == q
  {
    var at := 0;
    while at < |items| && Less(items[at].key, p.key)
      invariant 0 <= at <= |items|
      invariant forall i :: 0 <= i < at ==> Less(items[i].key, p.key)
    {
      at := at + 1;
    }
    r := items[..at] + [p] + items[at..];
    if at < |items| {
      LessTotal(items[at].key, p.key);
      forall i | at < i < |items| ensures Less(p.key, items[i].key) {
        LessTransitive(p.key, items[at].key, items[i].key);
      }
    }
    assert r[at] == p;
    forall q | q in items ensures exists i :: 0 <= i < |r| && r[i] == q {
      var i :| 0 <= i < |items| && items[i] == q;
      assert r[if i < at then i else i + 1] == q;
    }
  }
}
