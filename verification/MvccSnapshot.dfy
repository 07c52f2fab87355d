/** The two-level lazy iterator over a sorted store (`Snapshot`, `SnapshotCore` and
    `MvccIterator` of engine/group.rs). */
module MvccSnapshot {
  import opened Bytes
  import opened MvccKeys
  import opened Options
  import opened RawDb
  import opened ShardRange

  /** `SnapshotRange`. */
  datatype Range =
    | Target(targetKey: ByteString)
    | Prefix(prefix: ByteString)
    | Between(start: ByteString, end: ByteString)

  /** `SnapshotRange::is_valid_key`. */
  predicate IsValidKey(range: Range, key: ByteString) {
    match range
    case Target(t) => t == key
    case Prefix(p) => p <= key
    case Between(start, end) => InRange(start, end, key)
  }

  /** The user key at which the database iterator of a snapshot is positioned. */
  function SoughtKey(range: Range): ByteString {
    match range
    case Target(t) => t
    case Prefix(p) => p
    case Between(start, _) => start
  }

  /** Among the keys at or after the sought one, the valid ones come first. */
  lemma RangeIsInterval(range: Range, key: ByteString, later: ByteString)
    requires IsValidKey(range, later)
    ensures AtMost(SoughtKey(range), later)
    ensures AtMost(SoughtKey(range), key) && Less(key, later) ==> IsValidKey(range, key)
  {
    match range
    case Target(t) =>
      if AtMost(t, key) && Less(key, later) {
        LessAsymmetric(key, later);
      }
    case Prefix(p) =>
      assert later == p + later[|p|..];
      PrefixAtMost(p, later[|p|..]);
      if AtMost(p, key) && Less(key, later) {
        PrefixConvex(p, key, later);
      }
    case Between(start, end) =>
      if Less(key, later) && Less(later, end) {
        LessTransitive(key, later, end);
      }
  }

  // ---------------------------------------------------------------- what is stored

  /** Every key of the collection is an MVCC key; other keys have at least a collection id. */
  ghost predicate StoreValid(store: Store, collection: U64) {
    forall s :: s in store ==>
      |s| >= 8 && (s[..8] == CollectionPrefix(collection) ==> IsMvccKey(collection, s))
  }

  ghost predicate IsMvccKey(collection: U64, s: ByteString) {
    exists k: ByteString, v: U64 :: k != [] && s == EncodedKey(collection, k, v)
  }

  ghost predicate Stored(store: Store, collection: U64, key: ByteString, version: U64) {
    key != [] && EncodedKey(collection, key, version) in store
  }

  /** `key` has some version and lies in the range of the snapshot. */
  ghost predicate InSnapshot(store: Store, collection: U64, range: Range, key: ByteString) {
    IsValidKey(range, key) && exists v: U64 :: Stored(store, collection, key, v)
  }

  datatype Cell = Cell(version: int, value: ByteString)

  ghost predicate After(last: Option<ByteString>, key: ByteString) {
    last.None? || Less(last.value, key)
  }

  /** `r` is the least key of the snapshot after `last`, if there is one. */
  ghost predicate IsNextKey(store: Store, collection: U64, range: Range, last: Option<ByteString>,
                            r: Option<ByteString>)
  {
    match r
    case Some(k) =>
      && InSnapshot(store, collection, range, k) && After(last, k)
      && (forall k' :: InSnapshot(store, collection, range, k') && After(last, k') ==> AtMost(k, k'))
    case None =>
      forall k' :: InSnapshot(store, collection, range, k') ==> !After(last, k')
  }

  ghost predicate Older(v: int, last: Option<int>) {
    last.None? || v < last.value
  }

  /** `r` is the newest version of `key` older than `last`, if there is one. */
  ghost predicate IsNextVersion(store: Store, collection: U64, key: ByteString, last: Option<int>,
                                r: Option<Cell>)
  {
    match r
    case Some(c) =>
      && 0 <= c.version < TWO_64 && Stored(store, collection, key, c.version) && Older(c.version, last)
      && store[EncodedKey(collection, key, c.version)] == c.value
      && (forall v: U64 :: Stored(store, collection, key, v) && Older(v, last) ==> v <= c.version)
    case None =>
      forall v: U64 :: Stored(store, collection, key, v) ==> !Older(v, last)
  }

  // ---------------------------------------------------------------- decoded rows

  /** One stored version of one user key. */
  datatype Row = Row(key: ByteString, version: U64, value: ByteString)

  /** `MvccEntry`. */
  datatype Entry = Entry(key: ByteString, userKey: ByteString, value: ByteString)

  ghost predicate RowOf(collection: U64, r: Row, p: Pair) {
    r.key != [] && p.key == EncodedKey(collection, r.key, r.version) && r.value == p.value
  }

  /** User key ascending, version descending. */
  ghost predicate Before(a: Row, b: Row) {
    Less(a.key, b.key) || (a.key == b.key && a.version > b.version)
  }

  ghost predicate HasRow(rows: seq<Row>, key: ByteString, version: U64) {
    exists i :: 0 <= i < |rows| && rows[i].key == key && rows[i].version == version
  }

  ghost predicate RowStored(store: Store, collection: U64, r: Row) {
    Stored(store, collection, r.key, r.version) && store[EncodedKey(collection, r.key, r.version)] == r.value
  }

  ghost predicate RowFrom(store: Store, collection: U64, sought: ByteString, r: Row) {
    RowStored(store, collection, r) && AtMost(sought, r.key)
  }

  ghost predicate InOrder(rows: seq<Row>) {
    forall i, j {:trigger Before(rows[i], rows[j])} :: 0 <= i < j < |rows| ==> Before(rows[i], rows[j])
  }

  /** `rows` are exactly the stored versions of the keys at or after `sought`, in order. */
  ghost predicate Enumerates(store: Store, collection: U64, sought: ByteString, rows: seq<Row>) {
    && (forall i {:trigger RowFrom(store, collection, sought, rows[i])} ::
          0 <= i < |rows| ==> RowFrom(store, collection, sought, rows[i]))
    && InOrder(rows)
    && (forall k, v: U64 :: Stored(store, collection, k, v) && AtMost(sought, k) ==> HasRow(rows, k, v))
  }

  /** The pairs of the collection come first in the iterator, and they alone. */
  ghost predicate SplitsAt(collection: U64, items: seq<Pair>, rows: seq<Row>) {
    && |rows| <= |items|
    && (forall i {:trigger RowOf(collection, rows[i], items[i])} ::
          0 <= i < |rows| ==> RowOf(collection, rows[i], items[i]))
    && (forall i {:trigger OfCollection(collection, items[i])} ::
          |rows| <= i < |items| ==> |items[i].key| >= 8 && !OfCollection(collection, items[i]))
  }

  /** What the iterator needs to know of the pair it reads. */
  lemma ItemFacts(collection: U64, items: seq<Pair>, rows: seq<Row>, n: nat)
    requires SplitsAt(collection, items, rows) && n < |items|
    ensures var k := items[n].key;
            && |k| >= 8 && (k[..8] == CollectionPrefix(collection) <==> n < |rows|)
            && (n < |rows| ==>
                  && |k| > 16 && MarkersValid(k[8..|k| - 8])
                  && IsEntry(collection, Entry(k, DecodeGroups(k[8..|k| - 8]), items[n].value), rows[n]))
  {
    if n < |rows| {
      assert RowOf(collection, rows[n], items[n]);
      StoredKeyRoundTrip(collection, rows[n].key, rows[n].version);
    } else {
      assert !OfCollection(collection, items[n]);
    }
  }

  ghost predicate IsEntry(collection: U64, e: Entry, r: Row) {
    r.key != [] && e.key == EncodedKey(collection, r.key, r.version) && e.userKey == r.key && e.value == r.value
  }

  lemma EntryVersion(collection: U64, e: Entry, r: Row)
    requires IsEntry(collection, e, r)
    ensures |e.key| >= 8 && VersionOf(e.key) == r.version
  {
    StoredKeyRoundTrip(collection, r.key, r.version);
  }

  lemma SeekHasPrefix(collection: U64, sought: ByteString)
    ensures AtMost(CollectionPrefix(collection), SeekKey(collection, sought))
  {
    var p := CollectionPrefix(collection);
    if sought != [] {
      assert SeekKey(collection, sought) == p + (EncodeGroups(sought) + VersionSuffix(U64_MAX));
      PrefixAtMost(p, EncodeGroups(sought) + VersionSuffix(U64_MAX));
    }
  }

  lemma AtMostTransitive(a: ByteString, b: ByteString, c: ByteString)
    requires AtMost(a, b) && AtMost(b, c)
    ensures AtMost(a, c)
  {
    if a != b && b != c { LessTransitive(a, b, c); }
  }

  /** Once the iterator has left the collection it never returns to it. */
  lemma CollectionContiguous(collection: U64, sought: ByteString, items: seq<Pair>, i: nat, j: nat)
    requires forall n :: 0 <= n < |items| ==> |items[n].key| >= 8 && AtMost(SeekKey(collection, sought), items[n].key)
    requires Sorted(items)
    requires i < j < |items|
    requires items[j].key[..8] == CollectionPrefix(collection)
    ensures items[i].key[..8] == CollectionPrefix(collection)
  {
    var p := CollectionPrefix(collection);
    SeekHasPrefix(collection, sought);
    AtMostTransitive(p, SeekKey(collection, sought), items[i].key);
    assert p <= items[j].key;
    PrefixConvex(p, items[i].key, items[j].key);
  }

  ghost function DecodePair(collection: U64, p: Pair): (r: Row)
    requires IsMvccKey(collection, p.key)
    ensures RowOf(collection, r, p)
  {
    var k: ByteString, v: U64 :| k != [] && p.key == EncodedKey(collection, k, v);
    Row(k, v, p.value)
  }

  ghost predicate OfCollection(collection: U64, p: Pair) {
    |p.key| >= 8 && p.key[..8] == CollectionPrefix(collection)
  }

  ghost function DecodeLeading(collection: U64, items: seq<Pair>): (rows: seq<Row>)
    requires forall i :: 0 <= i < |items| && OfCollection(collection, items[i]) ==> IsMvccKey(collection, items[i].key)
    ensures |rows| <= |items|
    ensures forall i :: 0 <= i < |rows| ==> RowOf(collection, rows[i], items[i])
    ensures |rows| < |items| ==> !OfCollection(collection, items[|rows|])
  {
    if items == [] || !OfCollection(collection, items[0]) then []
    else [DecodePair(collection, items[0])] + DecodeLeading(collection, items[1..])
  }

  lemma RowsInOrder(collection: U64, items: seq<Pair>, rows: seq<Row>)
    requires Sorted(items) && SplitsAt(collection, items, rows)
    ensures InOrder(rows)
  {
    forall i, j | 0 <= i < j < |rows| ensures Before(rows[i], rows[j]) {
      assert RowOf(collection, rows[i], items[i]) && RowOf(collection, rows[j], items[j]);
      assert Less(items[i].key, items[j].key);
      StoredKeyOrder(collection, rows[i].key, rows[i].version, rows[j].key, rows[j].version);
    }
  }

  lemma RowsComplete(store: Store, collection: U64, sought: ByteString, items: seq<Pair>, rows: seq<Row>,
                     k: ByteString, v: U64)
    requires ListsFrom(store, SeekKey(collection, sought), items) && SplitsAt(collection, items, rows)
    requires Stored(store, collection, k, v) && AtMost(sought, k)
    ensures HasRow(rows, k, v)
  {
    SeekIsLeast(collection, sought, k, v);
    var s := EncodedKey(collection, k, v);
    var i :| 0 <= i < |items| && items[i].key == s;
    StoredKeyRoundTrip(collection, k, v);
    assert OfCollection(collection, items[i]);
    assert RowOf(collection, rows[i], items[i]);
    StoredKeyInjective(collection, k, v, collection, rows[i].key, rows[i].version);
  }

  /** Decoding the iterator gives every version of every key from the sought one on, and
      what follows belongs to other collections. */
  lemma DecodesStore(store: Store, collection: U64, sought: ByteString, items: seq<Pair>)
    returns (rows: seq<Row>)
    requires StoreValid(store, collection)
    requires ListsFrom(store, SeekKey(collection, sought), items)
    ensures SplitsAt(collection, items, rows)
    ensures Enumerates(store, collection, sought, rows)
  {
    hide Less, EncodedKey, SeekKey, CollectionPrefix;
    rows := DecodeLeading(collection, items);
    forall i | |rows| <= i < |items| ensures |items[i].key| >= 8 && !OfCollection(collection, items[i]) {
      if OfCollection(collection, items[i]) && |rows| < i {
        CollectionContiguous(collection, sought, items, |rows|, i);
      }
    }
    forall i | 0 <= i < |rows| ensures RowFrom(store, collection, sought, rows[i]) {
      assert RowOf(collection, rows[i], items[i]);
      SeekIsLeast(collection, sought, rows[i].key, rows[i].version);
    }
    RowsInOrder(collection, items, rows);
    forall k, v: U64 | Stored(store, collection, k, v) && AtMost(sought, k) ensures HasRow(rows, k, v) {
      RowsComplete(store, collection, sought, items, rows, k, v);
    }
  }

  // ---------------------------------------------------------------- positions

  /** `cursor` rows were handed over; `current` is the key whose iterator was last returned. */
  ghost predicate Position(rows: seq<Row>, cursor: nat, current: Option<ByteString>) {
    && cursor <= |rows|
    && (current.None? ==> cursor == 0)
    && (current.Some? ==>
          || (cursor < |rows| && rows[cursor].key == current.value)
          || (cursor > 0 && rows[cursor - 1].key == current.value))
  }

  /** First position from `cursor` on whose key is not the current one. */
  ghost function Skip(rows: seq<Row>, cursor: nat, current: Option<ByteString>): (b: nat)
    requires cursor <= |rows|
    ensures cursor <= b <= |rows|
    ensures b < |rows| ==> current != Some(rows[b].key)
    ensures forall i :: cursor <= i < b ==> current == Some(rows[i].key)
    decreases |rows| - cursor
  {
    if cursor < |rows| && current == Some(rows[cursor].key) then Skip(rows, cursor + 1, current) else cursor
  }

  /** The version handed over last, if it belongs to the current key. */
  ghost function LastVersion(rows: seq<Row>, cursor: nat, current: Option<ByteString>): Option<int>
    requires cursor <= |rows|
  {
    if cursor > 0 && current == Some(rows[cursor - 1].key) then Some(rows[cursor - 1].version) else None
  }

  /** The rows after the current key are those from the skip position on. */
  lemma SkipSplits(rows: seq<Row>, cursor: nat, current: ByteString, i: nat)
    requires InOrder(rows) && Position(rows, cursor, Some(current)) && i < |rows|
    ensures Less(current, rows[i].key) <==> i >= Skip(rows, cursor, Some(current))
  {
    var b := Skip(rows, cursor, Some(current));
    assert b > 0 && rows[b - 1].key == current;
    LessIrreflexive(current);
    if i < b - 1 {
      assert Before(rows[i], rows[b - 1]);
      if rows[i].key != current { LessAsymmetric(rows[i].key, current); }
    } else if i >= b {
      assert Before(rows[b - 1], rows[b]);
      if b < i {
        assert Before(rows[b], rows[i]);
        if rows[b].key != rows[i].key { LessTransitive(current, rows[b].key, rows[i].key); }
      }
    }
  }

  lemma KeyHasRow(store: Store, collection: U64, range: Range, rows: seq<Row>, k: ByteString) returns (i: nat)
    requires Enumerates(store, collection, SoughtKey(range), rows)
    requires InSnapshot(store, collection, range, k)
    ensures i < |rows| && rows[i].key == k
  {
    RangeIsInterval(range, k, k);
    var v: U64 :| Stored(store, collection, k, v);
    assert HasRow(rows, k, v);
    i :| 0 <= i < |rows| && rows[i].key == k && rows[i].version == v;
  }

  /** Every key of the snapshot after the current one is at or after the skip position. */
  lemma SkipBounds(store: Store, collection: U64, range: Range, rows: seq<Row>, cursor: nat,
                   current: Option<ByteString>, k: ByteString)
    requires Enumerates(store, collection, SoughtKey(range), rows)
    requires Position(rows, cursor, current)
    requires InSnapshot(store, collection, range, k) && After(current, k)
    ensures var b := Skip(rows, cursor, current);
            b < |rows| && AtMost(rows[b].key, k) && IsValidKey(range, rows[b].key)
  {
    var b := Skip(rows, cursor, current);
    var i := KeyHasRow(store, collection, range, rows, k);
    if current.Some? { SkipSplits(rows, cursor, current.value, i); }
    assert i >= b;
    if b < i { assert Before(rows[b], rows[i]); }
    assert RowFrom(store, collection, SoughtKey(range), rows[b]);
    RangeIsInterval(range, rows[b].key, k);
  }

  /** Skipping to the next key reaches the least key of the snapshot after the current one. */
  lemma SkipFindsNextKey(store: Store, collection: U64, range: Range, rows: seq<Row>, cursor: nat,
                         current: Option<ByteString>)
    requires Enumerates(store, collection, SoughtKey(range), rows)
    requires Position(rows, cursor, current)
    ensures var b := Skip(rows, cursor, current);
            IsNextKey(store, collection, range, current,
                      if b < |rows| && IsValidKey(range, rows[b].key) then Some(rows[b].key) else None)
  {
    var b := Skip(rows, cursor, current);
    forall k | InSnapshot(store, collection, range, k) && After(current, k)
      ensures b < |rows| && AtMost(rows[b].key, k) && IsValidKey(range, rows[b].key)
    {
      SkipBounds(store, collection, range, rows, cursor, current, k);
    }
    if b < |rows| && IsValidKey(range, rows[b].key) {
      assert RowFrom(store, collection, SoughtKey(range), rows[b]);
      assert InSnapshot(store, collection, range, rows[b].key);
      if current.Some? { SkipSplits(rows, cursor, current.value, b); }
    }
  }

  /** What was handed over of the current key is at least as new as the last version returned. */
  lemma HandedOverIsNewer(rows: seq<Row>, cursor: nat, current: ByteString, i: nat)
    requires InOrder(rows) && Position(rows, cursor, Some(current))
    requires i < cursor && rows[i].key == current
    ensures LastVersion(rows, cursor, Some(current)).Some?
    ensures LastVersion(rows, cursor, Some(current)).value <= rows[i].version
  {
    LessIrreflexive(current);
    if i < cursor - 1 { assert Before(rows[i], rows[cursor - 1]); }
    if rows[cursor - 1].key != current {
      assert Before(rows[cursor - 1], rows[cursor]);
      LessAsymmetric(current, rows[cursor - 1].key);
    }
  }

  /** A version of the current key that was not handed over is at or after the cursor. */
  lemma CursorBounds(rows: seq<Row>, cursor: nat, current: ByteString, i: nat)
    requires InOrder(rows) && Position(rows, cursor, Some(current))
    requires i < |rows| && rows[i].key == current
    requires Older(rows[i].version, LastVersion(rows, cursor, Some(current)))
    ensures cursor < |rows| && rows[cursor].key == current && rows[i].version <= rows[cursor].version
  {
    LessIrreflexive(current);
    if i < cursor {
      HandedOverIsNewer(rows, cursor, current, i);
    } else if cursor < i {
      assert Before(rows[cursor], rows[i]);
      if rows[cursor].key != current {
        assert Before(rows[cursor - 1], rows[cursor]);
        LessAsymmetric(current, rows[cursor].key);
      }
    }
  }

  /** The row at the cursor is the newest version not handed over yet. */
  lemma CursorIsNextVersion(store: Store, collection: U64, sought: ByteString, rows: seq<Row>, cursor: nat,
                            current: ByteString)
    requires Enumerates(store, collection, sought, rows) && AtMost(sought, current)
    requires Position(rows, cursor, Some(current))
    ensures IsNextVersion(store, collection, current, LastVersion(rows, cursor, Some(current)),
                          if cursor < |rows| && rows[cursor].key == current
                          then Some(Cell(rows[cursor].version, rows[cursor].value)) else None)
  {
    var last := LastVersion(rows, cursor, Some(current));
    forall v: U64 | Stored(store, collection, current, v) && Older(v, last)
      ensures cursor < |rows| && rows[cursor].key == current && v <= rows[cursor].version
    {
      assert HasRow(rows, current, v);
      var i :| 0 <= i < |rows| && rows[i].key == current && rows[i].version == v;
      CursorBounds(rows, cursor, current, i);
    }
    if cursor < |rows| && rows[cursor].key == current {
      assert RowFrom(store, collection, sought, rows[cursor]);
      if last.Some? {
        LessIrreflexive(current);
        assert Before(rows[cursor - 1], rows[cursor]);
      }
    }
  }

  // ---------------------------------------------------------------- the iterator

  /** `SnapshotMode`; `Start(None)` begins at the start of the shard. */
  datatype Mode = Start(startKey: Option<ByteString>) | Key(key: ByteString) | KeyPrefix(key: ByteString)

  /** `Snapshot::new`: the range of keys a snapshot of a shard may return. */
  function RangeOf(mode: Mode, shard: Shard): Range {
    match mode
    case Key(k) => Target(k)
    case KeyPrefix(k) => Prefix(k)
    case Start(s) => Between(if s.Some? then s.value else StartKey(shard), EndKey(shard))
  }

  /** The keys a caller asks for: one key, those with a prefix, or those of the shard, from some key of
      the shard on if one is given. A shard without a range has every key. */
  ghost predicate Wanted(mode: Mode, shard: Shard, key: ByteString) {
    match mode
    case Key(k) => key == k
    case KeyPrefix(p) => p <= key
    case Start(None) => shard.range.Some? ==> BelongsTo(shard, key)
    case Start(Some(from)) => AtMost(from, key) && (shard.range.Some? ==> BelongsTo(shard, key))
  }

  /** What the source demands of the key a snapshot starts from. */
  ghost predicate ModeOk(mode: Mode, shard: Shard) {
    mode.Start? && mode.startKey.Some? && shard.range.Some? ==> BelongsTo(shard, mode.startKey.value)
  }

  /** The range of a snapshot admits exactly the keys that were asked for. */
  lemma RangeIsWanted(mode: Mode, shard: Shard, key: ByteString)
    requires ModeOk(mode, shard)
    ensures IsValidKey(RangeOf(mode, shard), key) <==> Wanted(mode, shard, key)
  {
    if mode.Start? && mode.startKey.Some? && shard.range.Some? {
      var from, start := mode.startKey.value, shard.range.value.0;
      if AtMost(from, key) { AtMostTransitive(start, from, key); }
    }
  }

  class Snapshot {
    const collection: U64
    const range: Range
    var dbIter: seq<Pair>                // what the database iterator has still to return
    var currentKey: Option<ByteString>
    var cachedEntry: Option<Entry>

    ghost const store: Store
    ghost const items: seq<Pair>         // all the database iterator returns
    ghost const rows: seq<Row>           // the same, decoded

    ghost function Pulled(): int
      reads this
    {
      var n := |items| - |dbIter|;
      if n < |rows| then n else |rows|
    }

    ghost function Cursor(): int
      reads this
    {
      Pulled() - (if cachedEntry.Some? then 1 else 0)
    }

    ghost predicate Valid()
      reads this
    {
      && Enumerates(store, collection, SoughtKey(range), rows)
      && SplitsAt(collection, items, rows)
      && |dbIter| <= |items| && dbIter == items[|items| - |dbIter|..]
      && (cachedEntry.Some? ==> Pulled() > 0 && IsEntry(collection, cachedEntry.value, rows[Pulled() - 1]))
      && Cursor() >= 0 && Position(rows, Cursor(), currentKey)
      && (currentKey.Some? ==> IsValidKey(range, currentKey.value))
    }

    ghost function LastReturned(): Option<int>
      requires Valid()
      reads this
    {
      LastVersion(rows, Cursor(), currentKey)
    }

    /** `GroupEngine::snapshot` and `Snapshot::new`: seek the store and start before the first key. */
    constructor (store: Store, shard: Shard, mode: Mode)
      requires StoreValid(store, shard.collection) && ModeOk(mode, shard)
      ensures Valid() && currentKey == None
      ensures this.store == store && this.collection == shard.collection
      ensures range == RangeOf(mode, shard) && forall key :: IsValidKey(range, key) <==> Wanted(mode, shard, key)
    {
      forall key ensures IsValidKey(RangeOf(mode, shard), key) <==> Wanted(mode, shard, key) {
        RangeIsWanted(mode, shard, key);
      }
      var collection := shard.collection;
      var range := RangeOf(mode, shard);
      var sought := match mode
        case Start(s) => if s.Some? then s.value else StartKey(shard)
        case Key(k) => k
        case KeyPrefix(k) => k;
      var seek := SeekKey(collection, sought);
      var items := IteratorFrom(store, seek);
      ghost var rows := DecodesStore(store, collection, sought, items);
      this.collection, this.range := collection, range;
      this.dbIter, this.currentKey, this.cachedEntry := items, None, None;
      this.store, this.items, this.rows := store, items, rows;
    }

    /** `SnapshotCore::next_entry`: false when the iterator ends or leaves the collection. */
    method NextEntry() returns (more: bool)
      requires Valid()
      requires cachedEntry.Some? ==> currentKey == Some(cachedEntry.value.userKey)
      requires currentKey.None? ==> cachedEntry.None?
      modifies this`dbIter, this`cachedEntry
      ensures Valid()
      ensures more <==> old(Pulled()) < |rows|
      ensures more ==> cachedEntry.Some? && Pulled() == old(Pulled()) + 1
      ensures more ==> |dbIter| < old(|dbIter|)
      ensures !more ==> cachedEntry == old(cachedEntry) && Pulled() == old(Pulled())
    {
      hide Less, EncodedKey, Enumerates, IsValidKey, DecodeGroups, MarkersValid, LittleEndian;
      if dbIter == [] {
        return false;
      }
      var pair := dbIter[0];
      assert pair == items[|items| - |dbIter|];
      ItemFacts(collection, items, rows, |items| - |dbIter|);
      dbIter := dbIter[1..];
      if pair.key[..8] != LittleEndian(collection, 8) {
        return false;
      }
      var userKey := RevertMvccKey(pair.key);
      cachedEntry := Some(Entry(pair.key, userKey, pair.value));
      return true;
    }

    predicate IsCurrentKey(target: ByteString)
      reads this
    {
      currentKey.Some? && currentKey.value == target
    }

    /** `Snapshot::next_mvcc_iterator`, stated on positions of the decoded rows. */
    method NextMvccIterator() returns (key: Option<ByteString>)
      requires Valid()
      modifies this
      ensures Valid()
      ensures var b := old(Skip(rows, Cursor(), currentKey));
              && key == (if b < |rows| && IsValidKey(range, rows[b].key) then Some(rows[b].key) else None)
              && (key.Some? ==> Cursor() == b)
      ensures currentKey == if key.Some? then key else old(currentKey)
    {
      hide Less, EncodedKey, Enumerates, SplitsAt, IsValidKey;
      ghost var b := Skip(rows, Cursor(), currentKey);
      while true
        invariant Valid()
        invariant currentKey == old(currentKey)
        invariant Skip(rows, Cursor(), currentKey) == b
        decreases |dbIter|
      {
        if cachedEntry.Some? {
          if !IsValidKey(range, cachedEntry.value.userKey) {
            // Past the range: no key is left.
            return None;
          }
          // Rows of the current key are passed over.
          if !IsCurrentKey(cachedEntry.value.userKey) {
            currentKey := Some(cachedEntry.value.userKey);
            return currentKey;
          }
        }
        var more := NextEntry();
        if !more {
          return None;
        }
      }
    }

    /** `Snapshot::next`: the key of the next multi-version iterator. Whatever was read of the
        previous one, it is the least key of the snapshot after the current key. */
    method Next() returns (key: Option<ByteString>)
      requires Valid()
      modifies this
      ensures Valid()
      ensures IsNextKey(store, collection, range, old(currentKey), key)
      ensures currentKey == if key.Some? then key else old(currentKey)
      ensures key.Some? ==> LastReturned() == None
    {
      SkipFindsNextKey(store, collection, range, rows, Cursor(), currentKey);
      key := NextMvccIterator();
    }

    /** `MvccIterator::next`: the newest version of the current key that is older than
        everything this iterator has returned. */
    method NextVersion() returns (cell: Option<Cell>)
      requires Valid() && currentKey.Some?
      modifies this`dbIter, this`cachedEntry
      ensures Valid()
      ensures IsNextVersion(store, collection, currentKey.value, old(LastReturned()), cell)
      ensures LastReturned() == if cell.Some? then Some(cell.value.version) else old(LastReturned())
    {
      RangeIsInterval(range, currentKey.value, currentKey.value);
      CursorIsNextVersion(store, collection, SoughtKey(range), rows, Cursor(), currentKey.value);
      cell := NextMvccEntry();
    }

    /** `Snapshot::next_mvcc_entry`, stated on positions of the decoded rows. */
    method NextMvccEntry() returns (cell: Option<Cell>)
      requires Valid() && currentKey.Some?
      modifies this`dbIter, this`cachedEntry
      ensures Valid()
      ensures var n := old(Cursor());
              if n < |rows| && rows[n].key == currentKey.value
              then cell == Some(Cell(rows[n].version, rows[n].value)) && Cursor() == n + 1
              else cell == None && Cursor() == n
    {
      while true
        invariant Valid() && Cursor() == old(Cursor())
        decreases |dbIter|
      {
        if cachedEntry.Some? {
          var entry := cachedEntry.value;
          cachedEntry := None;
          if IsCurrentKey(entry.userKey) {
            EntryVersion(collection, entry, rows[Pulled() - 1]);
            return Some(Cell(VersionOf(entry.key), entry.value));
          } else {
            cachedEntry := Some(entry);
            return None;
          }
        }
        var more := NextEntry();
        if !more {
          return None;
        }
      }
    }

    /** Any caller: an arbitrary sequence of calls on the snapshot and on the iterator it last
        returned (`live` says whether there is one), in which iterators may be drained, read in
        part or dropped at once. */
    method Drive(script: seq<Call>, live: bool) returns (trace: seq<Event>)
      requires Valid()
      requires live ==> currentKey.Some?
      modifies this
      ensures Valid()
      ensures Explains(store, collection, range, script, trace, old(currentKey),
                       if live then old(LastReturned()) else None, live)
      decreases |script|
    {
      if script == [] {
        return [];
      }
      var rest;
      if script[0] == CallNext {
        var key := Next();
        rest := Drive(script[1..], key.Some?);
        trace := [KeyEvent(key)] + rest;
      } else if live {
        var cell := NextVersion();
        rest := Drive(script[1..], true);
        trace := [VersionEvent(cell)] + rest;
      } else {
        rest := Drive(script[1..], false);
        trace := [NoIterator] + rest;
      }
      assert trace[1..] == rest;
    }
  }

  // ---------------------------------------------------------------- whole traces

  datatype Call = CallNext | CallVersion
  datatype Event = KeyEvent(key: Option<ByteString>) | VersionEvent(cell: Option<Cell>) | NoIterator

  /** Each answer is determined by the store and by the last key and version returned. */
  ghost predicate Explains(store: Store, collection: U64, range: Range, script: seq<Call>, trace: seq<Event>,
                           last: Option<ByteString>, version: Option<int>, live: bool)
    decreases |script|
  {
    if script == [] then trace == []
    else
      trace != [] &&
      match script[0]
      case CallNext =>
        && trace[0].KeyEvent?
        && var k := trace[0].key;
        && IsNextKey(store, collection, range, last, k)
        && Explains(store, collection, range, script[1..], trace[1..], if k.Some? then k else last, None, k.Some?)
      case CallVersion =>
        if live && last.Some? then
          && trace[0].VersionEvent?
          && var c := trace[0].cell;
          && IsNextVersion(store, collection, last.value, version, c)
          && Explains(store, collection, range, script[1..], trace[1..], last,
                      if c.Some? then Some(c.value.version) else version, true)
        else
          && trace[0] == NoIterator
          && Explains(store, collection, range, script[1..], trace[1..], last, None, live)
  }

  /** The keys a trace returned, in order. */
  ghost function KeysOf(trace: seq<Event>): seq<ByteString> {
    if trace == [] then []
    else (if trace[0].KeyEvent? && trace[0].key.Some? then [trace[0].key.value] else []) + KeysOf(trace[1..])
  }

  ghost predicate Ascending(keys: seq<ByteString>) {
    forall i, j {:trigger Less(keys[i], keys[j])} :: 0 <= i < j < |keys| ==> Less(keys[i], keys[j])
  }

  /** Over every trace, the keys returned are the keys of the snapshot after `last`, each once,
      ascending and with none skipped; a final None means there were no others. */
  lemma {:induction false} TraceEnumeratesKeys(store: Store, collection: U64, range: Range, script: seq<Call>,
                                               trace: seq<Event>, last: Option<ByteString>, version: Option<int>,
                                               live: bool)
    requires Explains(store, collection, range, script, trace, last, version, live)
    ensures var keys := KeysOf(trace);
            && Ascending(keys)
            && (forall k :: k in keys ==> InSnapshot(store, collection, range, k) && After(last, k))
            && (forall k, m :: InSnapshot(store, collection, range, k) && After(last, k) && m in keys && AtMost(k, m)
                  ==> k in keys)
            && (KeyEvent(None) in trace ==>
                  forall k :: InSnapshot(store, collection, range, k) && After(last, k) ==> k in keys)
    decreases |script|
  {
    if script != [] {
      var t := trace[1..];
      assert trace == [trace[0]] + t;
      if script[0] == CallNext {
        var key := trace[0].key;
        TraceEnumeratesKeys(store, collection, range, script[1..], t, if key.Some? then key else last, None, key.Some?);
        if key.Some? {
          FirstKeyExtends(store, collection, range, last, key.value, KeysOf(t));
          assert KeysOf(trace) == [key.value] + KeysOf(t);
        } else {
          assert KeysOf(trace) == KeysOf(t);
        }
      } else {
        assert KeysOf(trace) == KeysOf(t);
        if live && last.Some? {
          var c := trace[0].cell;
          TraceEnumeratesKeys(store, collection, range, script[1..], t, last,
                              if c.Some? then Some(c.value.version) else version, true);
        } else {
          TraceEnumeratesKeys(store, collection, range, script[1..], t, last, None, live);
        }
      }
    }
  }

  /** A snapshot that was read to its end, however the inner iterators were treated, has returned exactly
      the stored keys that were asked for; for a whole shard, those that belong to it. */
  lemma SnapshotReturnsWanted(store: Store, shard: Shard, mode: Mode, script: seq<Call>, trace: seq<Event>, key: ByteString)
    requires Explains(store, shard.collection, RangeOf(mode, shard), script, trace, None, None, false)
    requires ModeOk(mode, shard) && KeyEvent(None) in trace
    ensures key in KeysOf(trace) <==> Wanted(mode, shard, key) && exists v: U64 :: Stored(store, shard.collection, key, v)
    ensures mode == Start(None) && shard.range.Some? ==>
              (key in KeysOf(trace) <==> BelongsTo(shard, key) && exists v: U64 :: Stored(store, shard.collection, key, v))
  {
    hide EncodedKey;
    TraceEnumeratesKeys(store, shard.collection, RangeOf(mode, shard), script, trace, None, None, false);
    RangeIsWanted(mode, shard, key);
    assert InSnapshot(store, shard.collection, RangeOf(mode, shard), key) <==>
           Wanted(mode, shard, key) && exists v: U64 :: Stored(store, shard.collection, key, v);
  }

  lemma FirstKeyExtends(store: Store, collection: U64, range: Range, last: Option<ByteString>, key: ByteString,
                        rest: seq<ByteString>)
    requires IsNextKey(store, collection, range, last, Some(key))
    requires Ascending(rest)
    requires forall k :: k in rest ==> InSnapshot(store, collection, range, k) && Less(key, k)
    ensures Ascending([key] + rest)
    ensures forall k :: k in rest ==> After(last, k)
    ensures forall k :: InSnapshot(store, collection, range, k) && After(last, k) ==> k == key || Less(key, k)
    ensures forall k :: InSnapshot(store, collection, range, k) && After(last, k) && AtMost(k, key) ==> k == key
  {
    forall k | k in rest ensures After(last, k) {
      if last.Some? { LessTransitive(last.value, key, k); }
    }
    forall k | InSnapshot(store, collection, range, k) && After(last, k) && AtMost(k, key) ensures k == key {
      if k != key { LessAsymmetric(k, key); }
    }
    var keys := [key] + rest;
    forall i, j | 0 <= i < j < |keys| ensures Less(keys[i], keys[j]) {
      assert keys[j] == rest[j - 1] && rest[j - 1] in rest;
      if i > 0 { assert Less(rest[i - 1], rest[j - 1]); }
    }
  }

  // ---------------------------------------------------------------- point reads

  /** All stored versions of `key`, newest first. */
  ghost predicate AllVersions(store: Store, collection: U64, key: ByteString, cells: seq<Cell>) {
    && (forall i, j :: 0 <= i < j < |cells| ==> cells[i].version > cells[j].version)
    && (forall i :: 0 <= i < |cells| ==>
          && 0 <= cells[i].version < TWO_64 && Stored(store, collection, key, cells[i].version)
          && store[EncodedKey(collection, key, cells[i].version)] == cells[i].value)
    && (forall v: U64 :: Stored(store, collection, key, v) ==> HasVersion(cells, v))
  }

  ghost predicate HasVersion(cells: seq<Cell>, v: int) {
    exists i :: 0 <= i < |cells| && cells[i].version == v
  }

  /** A snapshot of one key returns that key if and only if it is stored. */
  lemma TargetKey(store: Store, collection: U64, key: ByteString, found: Option<ByteString>)
    requires IsNextKey(store, collection, Target(key), None, found)
    ensures found.Some? ==> found.value == key
    ensures found.None? ==> forall v: U64 :: !Stored(store, collection, key, v)
  {
    if found.None? {
      forall v: U64 ensures !Stored(store, collection, key, v) {
        if Stored(store, collection, key, v) {
          assert InSnapshot(store, collection, Target(key), key);
        }
      }
    }
  }

  /** `GroupEngine::get` on the raw store: the newest version. */
  method ReadNewest(store: Store, collection: U64, key: ByteString) returns (cell: Option<Cell>)
    requires StoreValid(store, collection)
    ensures IsNextVersion(store, collection, key, None, cell)
  {
    var snapshot := new Snapshot(store, Shard(0, collection, None), Key(key));
    var found := snapshot.Next();
    TargetKey(store, collection, key, found);
    if found.Some? {
      cell := snapshot.NextVersion();
      return;
    }
    cell := None;
  }

  ghost function Oldest(cells: seq<Cell>): Option<int> {
    if cells == [] then None else Some(cells[|cells| - 1].version)
  }

  /** The newest versions of `key`, down to the last of `cells`. */
  ghost predicate NewestVersions(store: Store, collection: U64, key: ByteString, cells: seq<Cell>) {
    && (forall i, j :: 0 <= i < j < |cells| ==> cells[i].version > cells[j].version)
    && (forall i :: 0 <= i < |cells| ==>
          && 0 <= cells[i].version < TWO_64 && Stored(store, collection, key, cells[i].version)
          && store[EncodedKey(collection, key, cells[i].version)] == cells[i].value)
    && (forall v: U64 :: Stored(store, collection, key, v) ==> HasVersion(cells, v) || Older(v, Oldest(cells)))
  }

  lemma ExtendVersions(store: Store, collection: U64, key: ByteString, cells: seq<Cell>, cell: Cell)
    requires NewestVersions(store, collection, key, cells)
    requires IsNextVersion(store, collection, key, Oldest(cells), Some(cell))
    ensures NewestVersions(store, collection, key, cells + [cell])
  {
    hide EncodedKey;
    var more := cells + [cell];
    forall v: U64 | Stored(store, collection, key, v) ensures HasVersion(more, v) || Older(v, Oldest(more)) {
      if HasVersion(cells, v) {
        var i :| 0 <= i < |cells| && cells[i].version == v;
        assert more[i].version == v;
      } else if v == cell.version {
        assert more[|cells|].version == v;
      }
    }
  }

  /** `GroupEngine::get_all_versions` on the raw store. */
  method ReadAllVersions(store: Store, collection: U64, key: ByteString) returns (cells: seq<Cell>)
    requires StoreValid(store, collection)
    ensures AllVersions(store, collection, key, cells)
  {
    hide EncodedKey, Snapshot.Valid, Snapshot.LastReturned, StoreValid, IsNextKey;
    cells := [];
    var snapshot := new Snapshot(store, Shard(0, collection, None), Key(key));
    var found := snapshot.Next();
    TargetKey(store, collection, key, found);
    if found.Some? {
      var cell := snapshot.NextVersion();
      while cell.Some?
        invariant snapshot.Valid() && snapshot.currentKey == Some(key)
        invariant snapshot.store == store && snapshot.collection == collection
        invariant snapshot.LastReturned() == if cell.Some? then Some(cell.value.version) else Oldest(cells)
        invariant IsNextVersion(store, collection, key, Oldest(cells), cell)
        invariant NewestVersions(store, collection, key, cells)
        decreases if cell.Some? then cell.value.version + 1 else 0
      {
        ExtendVersions(store, collection, key, cells, cell.value);
        cells := cells + [cell.value];
        cell := snapshot.NextVersion();
      }
    }
  }

  // ---------------------------------------------------------------- versions in whole traces

  /** What the inner iterator returned before the next call of the outer one. */
  ghost function CellsOf(trace: seq<Event>): seq<Cell> {
    if trace == [] || trace[0].KeyEvent? then []
    else (if trace[0].VersionEvent? && trace[0].cell.Some? then [trace[0].cell.value] else []) + CellsOf(trace[1..])
  }

  /** The inner iterator reported its end before the next call of the outer one. */
  ghost predicate Exhausted(trace: seq<Event>) {
    trace != [] && !trace[0].KeyEvent? && (trace[0] == VersionEvent(None) || Exhausted(trace[1..]))
  }

  lemma NothingOlder(store: Store, collection: U64, key: ByteString, cells: seq<Cell>)
    requires NewestVersions(store, collection, key, cells)
    ensures IsNextVersion(store, collection, key, Oldest(cells), None) <==> AllVersions(store, collection, key, cells)
  {
    hide EncodedKey;
    if AllVersions(store, collection, key, cells) {
      forall v: U64 | Stored(store, collection, key, v) ensures !Older(v, Oldest(cells)) {
        assert HasVersion(cells, v);
      }
    }
  }

  /** After `cells` were returned, the trace goes on with the versions below them. */
  lemma {:induction false} VersionsGoOn(store: Store, collection: U64, range: Range, script: seq<Call>, trace: seq<Event>,
                                        key: ByteString, cells: seq<Cell>)
    requires Explains(store, collection, range, script, trace, Some(key), Oldest(cells), true)
    requires NewestVersions(store, collection, key, cells)
    ensures NewestVersions(store, collection, key, cells + CellsOf(trace))
    ensures Exhausted(trace) || AllVersions(store, collection, key, cells) ==>
              AllVersions(store, collection, key, cells + CellsOf(trace))
    decreases |script|
  {
    hide EncodedKey, NewestVersions, AllVersions;
    if script == [] || script[0] == CallNext {
      assert cells + CellsOf(trace) == cells;
    } else {
      var c, t := trace[0].cell, trace[1..];
      if c.Some? {
        ExtendVersions(store, collection, key, cells, c.value);
        NothingOlder(store, collection, key, cells);
        assert cells + CellsOf(trace) == cells + [c.value] + CellsOf(t);
        VersionsGoOn(store, collection, range, script[1..], t, key, cells + [c.value]);
      } else {
        NothingOlder(store, collection, key, cells);
        assert cells + CellsOf(trace) == cells + CellsOf(t);
        VersionsGoOn(store, collection, range, script[1..], t, key, cells);
      }
    }
  }

  /** Over every trace and in every mode, what is returned after a key and before the next call of
      the outer iterator are the newest versions of that key, newest first and none skipped, and
      all of them once the end was reported. */
  lemma {:induction false} TraceEnumeratesVersions(store: Store, collection: U64, range: Range, script: seq<Call>,
                                                   trace: seq<Event>, last: Option<ByteString>, version: Option<int>,
                                                   live: bool, at: nat)
    requires Explains(store, collection, range, script, trace, last, version, live)
    requires at < |trace| && trace[at].KeyEvent? && trace[at].key.Some?
    ensures var cells := CellsOf(trace[at + 1..]);
            && NewestVersions(store, collection, trace[at].key.value, cells)
            && (Exhausted(trace[at + 1..]) ==> AllVersions(store, collection, trace[at].key.value, cells))
    decreases |script|
  {
    hide EncodedKey, AllVersions, IsNextVersion, IsNextKey;
    var t := trace[1..];
    if at == 0 {
      assert [] + CellsOf(t) == CellsOf(t);
      VersionsGoOn(store, collection, range, script[1..], t, trace[0].key.value, []);
    } else {
      assert trace[at + 1..] == t[at..] && trace[at] == t[at - 1];
      match script[0] {
        case CallNext =>
          var k := trace[0].key;
          TraceEnumeratesVersions(store, collection, range, script[1..], t, if k.Some? then k else last, None, k.Some?, at - 1);
        case CallVersion =>
          if live && last.Some? {
            var c := trace[0].cell;
            TraceEnumeratesVersions(store, collection, range, script[1..], t, last,
                                    if c.Some? then Some(c.value.version) else version, true, at - 1);
          } else {
            TraceEnumeratesVersions(store, collection, range, script[1..], t, last, None, live, at - 1);
          }
      }
    }
  }
}
