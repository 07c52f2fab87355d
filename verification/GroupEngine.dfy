/** The column family of a group and the state it keeps in memory (`GroupEngine` of
    engine/group.rs). */
module GroupEngine {
  import opened Bytes
  import opened MvccKeys
  import opened MvccSnapshot
  import opened Options
  import opened RawDb
  import opened ShardRange

  datatype GroupDesc = GroupDesc(id: nat, epoch: nat, shards: seq<Shard>, replicas: seq<nat>)
  datatype ApplyState = ApplyState(index: nat, term: nat)
  datatype MoveStep = Prepare | Moving | Moved | Finished | Aborted
  datatype MoveState = MoveState(shard: Shard, step: MoveStep)

  datatype Core = Core(desc: GroupDesc, shards: map<nat, Shard>, move: Option<MoveState>)

  /** Protobuf encoding of what is kept under the local keys. */
  datatype Codec = Codec(
    apply: ApplyState -> ByteString, readApply: ByteString -> Option<ApplyState>,
    desc: GroupDesc -> ByteString, readDesc: ByteString -> Option<GroupDesc>,
    move: MoveState -> ByteString, readMove: ByteString -> Option<MoveState>)

  ghost predicate Lossless(codec: Codec) {
    && (forall a {:trigger codec.apply(a)} :: codec.readApply(codec.apply(a)) == Some(a))
    && (forall d {:trigger codec.desc(d)} :: codec.readDesc(codec.desc(d)) == Some(d))
    && (forall m {:trigger codec.move(m)} :: codec.readMove(codec.move(m)) == Some(m))
  }

  const LOCAL: U64 := 0
  const INITIAL_EPOCH := 1

  // ---- Local keys ----

  const APPLY_STATE: ByteString := [65, 80, 80, 76, 89, 95, 83, 84, 65, 84, 69]
  const DESCRIPTOR: ByteString := [68, 69, 83, 67, 82, 73, 80, 84, 79, 82]
  const MIGRATE_STATE: ByteString := [77, 73, 71, 82, 65, 84, 69, 95, 83, 84, 65, 84, 69]

  function LocalKey(name: ByteString): ByteString {
    CollectionPrefix(LOCAL) + name
  }

  predicate IsLocal(s: ByteString) {
    s == LocalKey(APPLY_STATE) || s == LocalKey(DESCRIPTOR) || s == LocalKey(MIGRATE_STATE)
  }

  /** No local key is a key of a user collection. */
  lemma LocalKeysApart(c: U64, k: ByteString, v: U64)
    requires c != LOCAL && k != []
    ensures !IsLocal(EncodedKey(c, k, v))
  {
  }

  /** The three local keys differ from each other. */
  lemma LocalNamesApart()
    ensures LocalKey(APPLY_STATE) != LocalKey(DESCRIPTOR)
    ensures LocalKey(DESCRIPTOR) != LocalKey(MIGRATE_STATE)
    ensures LocalKey(MIGRATE_STATE) != LocalKey(APPLY_STATE)
  {
  }

  lemma PrefixesApart(c: U64)
    requires c != LOCAL
    ensures CollectionPrefix(c) != CollectionPrefix(LOCAL)
  {
    if CollectionPrefix(c) == CollectionPrefix(LOCAL) {
      Pow256Eight();
      LittleEndianInjective(c, LOCAL, 8);
    }
  }

  // ---- Values ----

  /** `values::data` and `values::tombstone`. */
  function ValueBytes(content: Option<ByteString>): ByteString {
    match content case None => [1] case Some(v) => [0] + v
  }

  /** `MvccEntry::value`. */
  function ContentOf(value: ByteString): Option<ByteString>
    requires value != []
  {
    if value[0] == 1 then None else Some(value[1..])
  }

  lemma ValueRoundTrip(content: Option<ByteString>)
    ensures ContentOf(ValueBytes(content)) == content
  {
  }

  // ---- Edits and batches ----

  datatype BatchOp = PutRaw(key: ByteString, value: ByteString) | DeleteRaw(key: ByteString)

  /** A change of one version of one key; no change of the other versions. */
  datatype Edit = Edit(collection: U64, key: ByteString, version: U64, change: Change)
  datatype Change = Data(value: ByteString) | Tombstone | Removed

  predicate EditOk(e: Edit) {
    e.collection != LOCAL && e.key != []
  }

  function OpOf(e: Edit): BatchOp
    requires EditOk(e)
  {
    var k := EncodedKey(e.collection, e.key, e.version);
    match e.change
    case Data(v) => PutRaw(k, ValueBytes(Some(v)))
    case Tombstone => PutRaw(k, ValueBytes(None))
    case Removed => DeleteRaw(k)
  }

  function OpsOf(edits: seq<Edit>): (r: seq<BatchOp>)
    requires forall i :: 0 <= i < |edits| ==> EditOk(edits[i])
    ensures |r| == |edits|
    ensures forall i :: 0 <= i < |edits| ==> r[i] == OpOf(edits[i])
  {
    seq(|edits|, i requires 0 <= i < |edits| => OpOf(edits[i]))
  }

  function ApplyOp(store: Store, op: BatchOp): Store {
    match op
    case PutRaw(k, v) => store[k := v]
    case DeleteRaw(k) => store - {k}
  }

  /** An atomic write of a batch. */
  function ApplyOps(store: Store, ops: seq<BatchOp>): Store {
    if ops == [] then store else ApplyOp(ApplyOps(store, ops[..|ops| - 1]), ops[|ops| - 1])
  }

  /** The value one version of a key was last given; `None` once it is removed. The outer option
      is presence, the inner one tells data from a tombstone. */
  function LastEdit(h: seq<Edit>, c: U64, k: ByteString, v: int): Option<Option<ByteString>> {
    if h == [] then None
    else
      var e := h[|h| - 1];
      if e.collection == c && e.key == k && e.version == v then
        match e.change
        case Data(value) => Some(Some(value))
        case Tombstone => Some(None)
        case Removed => None
      else LastEdit(h[..|h| - 1], c, k, v)
  }

  /** The i-th edit is the last of one version of one key. */
  ghost predicate LastOf(h: seq<Edit>, i: int, c: U64, k: ByteString, v: int) {
    && 0 <= i < |h| && Touches(h[i], c, k, v)
    && forall j :: i < j < |h| ==> !Touches(h[j], c, k, v)
  }

  predicate Touches(e: Edit, c: U64, k: ByteString, v: int) {
    e.collection == c && e.key == k && e.version == v
  }

  /** A version is there exactly if the last edit of it was not a removal, and then with the data that
      was put, or as a tombstone. */
  lemma {:induction false} LastEditIs(h: seq<Edit>, c: U64, k: ByteString, v: int) returns (i: int)
    ensures LastEdit(h, c, k, v).Some? ==> LastOf(h, i, c, k, v)
    ensures (exists j :: LastOf(h, j, c, k, v)) ==> LastOf(h, i, c, k, v)
    ensures LastOf(h, i, c, k, v) ==>
              match h[i].change
              case Data(value) => LastEdit(h, c, k, v) == Some(Some(value))
              case Tombstone => LastEdit(h, c, k, v) == Some(None)
              case Removed => LastEdit(h, c, k, v) == None
  {
    i := -1;
    if h != [] {
      var n := |h| - 1;
      i := LastEditIs(h[..n], c, k, v);
      if Touches(h[n], c, k, v) {
        i := n;
      } else if j :| LastOf(h, j, c, k, v) {
        assert LastOf(h[..n], j, c, k, v);
      }
    }
  }

  /** What is stored for one version of a key, decoded. */
  ghost function CellAt(store: Store, c: U64, k: ByteString, v: U64): Option<ByteString>
    requires k != []
  {
    var e := EncodedKey(c, k, v);
    if e in store then Some(store[e]) else None
  }

  ghost function Encoded(content: Option<Option<ByteString>>): Option<ByteString> {
    match content case None => None case Some(c) => Some(ValueBytes(c))
  }

  /** The user collections in the store are what the edits made of them. */
  ghost predicate Holds(store: Store, h: seq<Edit>) {
    forall c: U64, k: ByteString, v: U64 :: c != LOCAL && k != [] ==> CellAt(store, c, k, v) == Encoded(LastEdit(h, c, k, v))
  }

  /** Besides the local keys there are only versions of keys of user collections. */
  ghost predicate Tidy(store: Store) {
    forall s :: s in store ==> IsLocal(s) || IsUser(s)
  }

  ghost predicate IsUser(s: ByteString) {
    exists c: U64, k: ByteString, v: U64 :: c != LOCAL && k != [] && s == EncodedKey(c, k, v)
  }

  /** A tidy store is one that snapshots of any user collection can read. */
  lemma TidyIsValid(store: Store, c: U64)
    requires Tidy(store) && c != LOCAL
    ensures StoreValid(store, c)
  {
    hide EncodedKey, CollectionPrefix;
    PrefixesApart(c);
    forall s | s in store
      ensures |s| >= 8 && (s[..8] == CollectionPrefix(c) ==> IsMvccKey(c, s))
    {
      if IsLocal(s) {
        assert s[..8] == CollectionPrefix(LOCAL);
      } else {
        var c', k, v :| c' != LOCAL && k != [] && s == EncodedKey(c', k, v);
        StoredKeyRoundTrip(c', k, v);
        if s[..8] == CollectionPrefix(c) { PrefixInjective(c', c); }
      }
    }
  }

  lemma PrefixInjective(a: U64, b: U64)
    requires CollectionPrefix(a) == CollectionPrefix(b)
    ensures a == b
  {
    Pow256Eight();
    LittleEndianInjective(a, b, 8);
  }

  /** One edit changes its own version of its own key, and neither another version, nor another
      key, nor a local key. */
  lemma EditApplies(store: Store, h: seq<Edit>, e: Edit)
    requires Holds(store, h) && Tidy(store) && EditOk(e)
    ensures var store' := ApplyOp(store, OpOf(e));
            Holds(store', h + [e]) && Tidy(store') && SameLocal(store, store')
  {
    hide EncodedKey, ValueBytes;
    var store' := ApplyOp(store, OpOf(e));
    assert (h + [e])[..|h|] == h;
    forall c: U64, k: ByteString, v: U64 | c != LOCAL && k != []
      ensures CellAt(store', c, k, v) == Encoded(LastEdit(h + [e], c, k, v))
    {
      assert CellAt(store, c, k, v) == Encoded(LastEdit(h, c, k, v));
      if EncodedKey(c, k, v) == EncodedKey(e.collection, e.key, e.version) {
        StoredKeyInjective(c, k, v, e.collection, e.key, e.version);
      }
    }
    LocalKeysApart(e.collection, e.key, e.version);
  }

  ghost predicate SameLocal(a: Store, b: Store) {
    forall s :: IsLocal(s) ==> (s in a <==> s in b) && (s in a ==> a[s] == b[s])
  }

  lemma {:induction false} EditsApply(store: Store, h: seq<Edit>, edits: seq<Edit>)
    requires Holds(store, h) && Tidy(store)
    requires forall i :: 0 <= i < |edits| ==> EditOk(edits[i])
    ensures var store' := ApplyOps(store, OpsOf(edits));
            Holds(store', h + edits) && Tidy(store') && SameLocal(store, store')
  {
    hide Holds, Tidy, EncodedKey;
    if edits == [] {
      assert h + edits == h;
    } else {
      var n := |edits| - 1;
      EditsApply(store, h, edits[..n]);
      assert OpsOf(edits)[..n] == OpsOf(edits[..n]);
      EditApplies(ApplyOps(store, OpsOf(edits[..n])), h + edits[..n], edits[n]);
      assert h + edits[..n] + [edits[n]] == h + edits;
    }
  }

  // ---- States ----

  /** What is written along with the batches (`WriteStates`). */
  datatype WriteStates = WriteStates(apply: Option<ApplyState>, desc: Option<GroupDesc>, move: Option<MoveState>)

  predicate Ended(m: MoveState) {
    m.step == Finished || m.step == Aborted
  }

  /** `WriteStates::write`, at the end of a batch: a move that has ended is not persisted. */
  function StatesInto(store: Store, codec: Codec, states: WriteStates): Store {
    var s1 := if states.apply.Some? then store[LocalKey(APPLY_STATE) := codec.apply(states.apply.value)] else store;
    var s2 := if states.desc.Some? then s1[LocalKey(DESCRIPTOR) := codec.desc(states.desc.value)] else s1;
    if states.move.None? then s2
    else if !Ended(states.move.value) then s2[LocalKey(MIGRATE_STATE) := codec.move(states.move.value)]
    else s2 - {LocalKey(MIGRATE_STATE)}
  }

  function Persisted<T>(store: Store, name: ByteString, read: ByteString -> Option<T>): Option<T> {
    if LocalKey(name) in store then read(store[LocalKey(name)]) else None
  }

  /** A move is known from its report on until it is finished or aborted. */
  lemma MoveAfterIs(older: Option<MoveState>, newer: Option<MoveState>)
    ensures newer.None? ==> MoveAfter(older, newer) == older
    ensures newer.Some? && newer.value.step in {Prepare, Moving, Moved} ==> MoveAfter(older, newer) == newer
    ensures newer.Some? && newer.value.step in {Finished, Aborted} ==> MoveAfter(older, newer) == None
  {
  }

  /** The newer of two optional values. */
  function Or<T>(newer: Option<T>, older: Option<T>): Option<T> {
    if newer.Some? then newer else older
  }

  /** The move state after one more report of it. */
  function MoveAfter(older: Option<MoveState>, newer: Option<MoveState>): Option<MoveState> {
    match newer case None => older case Some(m) => if Ended(m) then None else Some(m)
  }

  /** Writing a local key leaves the user collections alone. */
  lemma LocalWrite(store: Store, h: seq<Edit>, op: BatchOp)
    requires Tidy(store) && Holds(store, h) && IsLocal(op.key)
    ensures var store' := ApplyOp(store, op);
            Tidy(store') && Holds(store', h)
  {
  }

  lemma StatesKeepEdits(codec: Codec, store: Store, h: seq<Edit>, states: WriteStates)
    requires Tidy(store) && Holds(store, h)
    ensures Tidy(StatesInto(store, codec, states)) && Holds(StatesInto(store, codec, states), h)
  {
    hide Tidy, Holds, LocalKey;
    var s1, s2 := store, store;
    if states.apply.Some? {
      var op := PutRaw(LocalKey(APPLY_STATE), codec.apply(states.apply.value));
      LocalWrite(store, h, op);
      s1 := ApplyOp(store, op);
    }
    s2 := s1;
    if states.desc.Some? {
      var op := PutRaw(LocalKey(DESCRIPTOR), codec.desc(states.desc.value));
      LocalWrite(s1, h, op);
      s2 := ApplyOp(s1, op);
    }
    if states.move.Some? {
      LocalWrite(s2, h, if Ended(states.move.value) then DeleteRaw(LocalKey(MIGRATE_STATE))
                 else PutRaw(LocalKey(MIGRATE_STATE), codec.move(states.move.value)));
    }
  }

  /** What is persisted afterwards. */
  lemma StatesWritten(codec: Codec, store: Store, states: WriteStates)
    requires Lossless(codec)
    ensures var store' := StatesInto(store, codec, states);
            && Persisted(store', APPLY_STATE, codec.readApply)
               == Or(states.apply, Persisted(store, APPLY_STATE, codec.readApply))
            && Persisted(store', DESCRIPTOR, codec.readDesc)
               == Or(states.desc, Persisted(store, DESCRIPTOR, codec.readDesc))
            && Persisted(store', MIGRATE_STATE, codec.readMove)
               == MoveAfter(Persisted(store, MIGRATE_STATE, codec.readMove), states.move)
  {
  }

  // ---- The core kept in memory ----

  /** `internal::shard_descs`, plus the shard being moved unless the group has it already. */
  function ShardMap(desc: GroupDesc, move: Option<MoveState>): map<nat, Shard> {
    var own := ById(desc.shards);
    if move.Some? && move.value.shard.id !in own then own[move.value.shard.id := move.value.shard] else own
  }

  function ById(shards: seq<Shard>): map<nat, Shard> {
    if shards == [] then map[] else ById(shards[..|shards| - 1])[shards[|shards| - 1].id := shards[|shards| - 1]]
  }

  ghost predicate LastWithId(shards: seq<Shard>, i: int, id: nat) {
    0 <= i < |shards| && shards[i].id == id && forall j :: i < j < |shards| ==> shards[j].id != id
  }

  /** Each id that occurs leads to the last shard that has it, and no other id is there. */
  lemma {:induction false} ByIdIsLast(shards: seq<Shard>, id: nat) returns (i: int)
    ensures id in ById(shards) <==> exists j :: 0 <= j < |shards| && shards[j].id == id
    ensures id in ById(shards) ==> LastWithId(shards, i, id) && ById(shards)[id] == shards[i]
  {
    i := 0;
    if shards != [] {
      var n := |shards| - 1;
      i := ByIdIsLast(shards[..n], id);
      if shards[n].id == id { i := n; }
    }
  }

  /** The shards an engine knows: those of its group, each as last listed, and the one being moved
      unless the group has it already. */
  lemma ShardMapIs(desc: GroupDesc, move: Option<MoveState>, id: nat)
    ensures id in ShardMap(desc, move) <==>
            || (exists j :: 0 <= j < |desc.shards| && desc.shards[j].id == id)
            || (move.Some? && move.value.shard.id == id)
    ensures id in ShardMap(desc, move) ==>
              || (exists i :: LastWithId(desc.shards, i, id) && ShardMap(desc, move)[id] == desc.shards[i])
              || (!(exists j :: 0 <= j < |desc.shards| && desc.shards[j].id == id)
                  && move.Some? && ShardMap(desc, move)[id] == move.value.shard)
  {
    var i := ByIdIsLast(desc.shards, id);
  }

  /** What `open` rebuilds; `None` where it panics or fails. */
  function Rebuilt(store: Store, codec: Codec): Option<Core> {
    match Persisted(store, DESCRIPTOR, codec.readDesc)
    case None => None
    case Some(desc) =>
      if LocalKey(MIGRATE_STATE) in store && codec.readMove(store[LocalKey(MIGRATE_STATE)]).None? then None
      else
        var move := Persisted(store, MIGRATE_STATE, codec.readMove);
        Some(Core(desc, ShardMap(desc, move), move))
  }

  /** What `apply_core_states` makes of the core. */
  function CoreAfter(core: Core, desc: Option<GroupDesc>, move: Option<MoveState>): Core {
    var desc' := if desc.Some? then desc.value else core.desc;
    var move' := MoveAfter(core.move, move);
    Core(desc', ShardMap(desc', move'), move')
  }

  /** Writing states and applying them to the core commute with rebuilding it. */
  lemma RebuiltAfterWrite(codec: Codec, store: Store, core: Core, states: WriteStates)
    requires Lossless(codec) && Rebuilt(store, codec) == Some(core)
    ensures Rebuilt(StatesInto(store, codec, states), codec) == Some(CoreAfter(core, states.desc, states.move))
    ensures states.desc.None? && states.move.None? ==> CoreAfter(core, states.desc, states.move) == core
  {
  }

  lemma RebuiltFromLocal(codec: Codec, a: Store, b: Store)
    requires SameLocal(a, b)
    ensures Rebuilt(a, codec) == Rebuilt(b, codec)
    ensures Persisted(a, APPLY_STATE, codec.readApply) == Persisted(b, APPLY_STATE, codec.readApply)
  {
  }

  // ---- The engine ----

  datatype Result<T> = Ok(value: T) | ShardNotFound(shard: nat)
  datatype Value = Value(content: Option<ByteString>, version: int)

  /** Batches one after the other. */
  function Flatten(wbs: seq<seq<BatchOp>>): seq<BatchOp> {
    if wbs == [] then [] else Flatten(wbs[..|wbs| - 1]) + wbs[|wbs| - 1]
  }

  /** The newest version a key was given and still has. */
  ghost predicate IsNewest(h: seq<Edit>, c: U64, k: ByteString, r: Option<Value>) {
    match r
    case Some(value) =>
      && 0 <= value.version < TWO_64 && LastEdit(h, c, k, value.version) == Some(value.content)
      && (forall v: U64 :: v > value.version ==> LastEdit(h, c, k, v) == None)
    case None => forall v: U64 :: LastEdit(h, c, k, v) == None
  }

  /** Every version a key was given and still has, newest first. */
  ghost predicate AreVersions(h: seq<Edit>, c: U64, k: ByteString, values: seq<Value>) {
    && (forall i, j :: 0 <= i < j < |values| ==> values[i].version > values[j].version)
    && (forall i :: 0 <= i < |values| ==>
          0 <= values[i].version < TWO_64 && LastEdit(h, c, k, values[i].version) == Some(values[i].content))
    && (forall v: U64 :: LastEdit(h, c, k, v).Some? ==> exists i :: 0 <= i < |values| && values[i].version == v)
  }

  lemma CellIsEdit(store: Store, h: seq<Edit>, c: U64, k: ByteString, v: U64)
    requires Holds(store, h) && c != LOCAL && forall i :: 0 <= i < |h| ==> EditOk(h[i])
    ensures Stored(store, c, k, v) <==> LastEdit(h, c, k, v).Some?
    ensures Stored(store, c, k, v) ==>
              store[EncodedKey(c, k, v)] != [] && LastEdit(h, c, k, v) == Some(ContentOf(store[EncodedKey(c, k, v)]))
  {
    hide EncodedKey;
    if k != [] {
      assert CellAt(store, c, k, v) == Encoded(LastEdit(h, c, k, v));
      if Stored(store, c, k, v) { ValueRoundTrip(LastEdit(h, c, k, v).value); }
    } else {
      NoEmptyKeys(h, c, v);
    }
  }

  lemma {:induction false} NoEmptyKeys(h: seq<Edit>, c: U64, v: int)
    requires forall i :: 0 <= i < |h| ==> EditOk(h[i])
    ensures LastEdit(h, c, [], v) == None
  {
    if h != [] { NoEmptyKeys(h[..|h| - 1], c, v); }
  }

  function ValueOf(cell: Cell): Value
    requires cell.value != []
  {
    Value(ContentOf(cell.value), cell.version)
  }

  /** The newest stored version is the newest the edits left. */
  lemma NewestIsEdit(store: Store, h: seq<Edit>, c: U64, k: ByteString, cell: Option<Cell>)
    requires Holds(store, h) && c != LOCAL && forall i :: 0 <= i < |h| ==> EditOk(h[i])
    requires IsNextVersion(store, c, k, None, cell)
    ensures cell.Some? ==> cell.value.value != []
    ensures IsNewest(h, c, k, if cell.None? then None else Some(ValueOf(cell.value)))
  {
    hide EncodedKey, Holds, LastEdit;
    forall v: U64 ensures Stored(store, c, k, v) <==> LastEdit(h, c, k, v).Some? { CellIsEdit(store, h, c, k, v); }
    if cell.Some? { CellIsEdit(store, h, c, k, cell.value.version); }
  }

  lemma VersionsAreEdits(store: Store, h: seq<Edit>, c: U64, k: ByteString, cells: seq<Cell>)
    requires Holds(store, h) && c != LOCAL && forall i :: 0 <= i < |h| ==> EditOk(h[i])
    requires AllVersions(store, c, k, cells)
    ensures forall i :: 0 <= i < |cells| ==> cells[i].value != []
    ensures AreVersions(h, c, k, seq(|cells|, i requires 0 <= i < |cells| => ValueOf(cells[i])))
  {
    hide EncodedKey, Holds, LastEdit;
    forall i | 0 <= i < |cells|
      ensures cells[i].value != [] && LastEdit(h, c, k, cells[i].version) == Some(ContentOf(cells[i].value))
    {
      CellIsEdit(store, h, c, k, cells[i].version);
    }
    var values := seq(|cells|, i requires 0 <= i < |cells| => ValueOf(cells[i]));
    forall v: U64 | LastEdit(h, c, k, v).Some? ensures exists i :: 0 <= i < |values| && values[i].version == v {
      CellIsEdit(store, h, c, k, v);
      assert HasVersion(cells, v);
      var i :| 0 <= i < |cells| && cells[i].version == v;
      assert values[i].version == v;
    }
  }

  class Engine {
    const codec: Codec
    var store: Store
    var core: Core

    /** The memory is what `open` would rebuild from the column family. */
    ghost predicate InSync()
      reads this
    {
      Lossless(codec) && Rebuilt(store, codec) == Some(core)
    }

    /** The column family holds what the edits made of it. */
    ghost predicate Reflects(h: seq<Edit>)
      reads this
    {
      && Tidy(store) && Holds(store, h)
      && (forall i :: 0 <= i < |h| ==> EditOk(h[i]))
    }

    /** `create`. */
    constructor Create(codec: Codec, group: nat)
      requires Lossless(codec)
      ensures this.codec == codec && InSync() && Reflects([])
      ensures core == Core(GroupDesc(group, INITIAL_EPOCH, [], []), map[], None)
      ensures Persisted(store, APPLY_STATE, codec.readApply) == Some(ApplyState(0, 0))
    {
      this.codec := codec;
      var desc := GroupDesc(group, INITIAL_EPOCH, [], []);
      var states := WriteStates(Some(ApplyState(0, 0)), Some(desc), None);
      store := StatesInto(map[], codec, states);
      core := Core(desc, map[], None);
      StatesKeepEdits(codec, map[], [], states);
      StatesWritten(codec, map[], states);
      LocalNamesApart();
    }

    constructor WithCore(codec: Codec, store: Store, core: Core)
      ensures this.codec == codec && this.store == store && this.core == core
    {
      this.codec, this.store, this.core := codec, store, core;
    }

    /** `put`, `tombstone` and `delete` add to a batch. */
    method AddEdit(wb: seq<BatchOp>, shard: nat, key: ByteString, version: U64, change: Change, ghost edits: seq<Edit>)
      returns (r: Result<seq<BatchOp>>, ghost edits': seq<Edit>)
      requires forall i :: 0 <= i < |edits| ==> EditOk(edits[i])
      requires wb == OpsOf(edits)
      requires shard in core.shards ==> core.shards[shard].collection != LOCAL && BelongsTo(core.shards[shard], key)
      requires key != []
      ensures r.Ok? <==> shard in core.shards
      ensures r.Ok? ==>
                && edits' == edits + [Edit(core.shards[shard].collection, key, version, change)]
                && (forall i :: 0 <= i < |edits'| ==> EditOk(edits'[i]))
                && r.value == OpsOf(edits')
    {
      edits' := edits;
      if shard !in core.shards {
        return ShardNotFound(shard), edits;
      }
      var edit := Edit(core.shards[shard].collection, key, version, change);
      edits' := edits + [edit];
      r := Ok(wb + [OpOf(edit)]);
    }

    /** `group_commit`. Memory and column family stay in step, the batches take effect in order
        and together with the states, and nothing else changes. */
    method GroupCommit(wbs: seq<seq<BatchOp>>, states: WriteStates, ghost h: seq<Edit>, ghost edits: seq<Edit>)
      requires InSync() && Reflects(h)
      requires forall i :: 0 <= i < |edits| ==> EditOk(edits[i])
      requires Flatten(wbs) == OpsOf(edits)
      modifies this
      ensures InSync() && Reflects(h + edits)
      ensures core.desc == if states.desc.Some? then states.desc.value else old(core).desc
      ensures core.move == MoveAfter(old(core).move, states.move)
      ensures Persisted(store, APPLY_STATE, codec.readApply)
              == Or(states.apply, old(Persisted(store, APPLY_STATE, codec.readApply)))
    {
      hide Tidy, Holds, Rebuilt, LocalKey, Lossless;
      var staged := Stage(store, wbs);
      EditsApply(store, h, edits);
      RebuiltFromLocal(codec, store, staged);
      StatesKeepEdits(codec, staged, h + edits, states);
      StatesWritten(codec, staged, states);
      RebuiltAfterWrite(codec, staged, core, states);
      store := StatesInto(staged, codec, states);
      if states.desc.Some? || states.move.Some? {
        ApplyCoreStates(states.desc, states.move);
      }
    }

    /** `apply_core_states`. */
    method ApplyCoreStates(desc: Option<GroupDesc>, move: Option<MoveState>)
      modifies this`core
      ensures core == CoreAfter(old(core), desc, move)
    {
      if desc.Some? {
        core := core.(desc := desc.value);
      }
      if move.Some? {
        core := core.(move := if Ended(move.value) then None else move);
      }
      var own := CollectShards(core.desc.shards);
      core := core.(shards := own);
      if core.move.Some? && core.move.value.shard.id !in core.shards {
        core := core.(shards := core.shards[core.move.value.shard.id := core.move.value.shard]);
      }
    }

    /** `ingest` of another replica's files. The memory agrees with a reopened engine exactly when
        the files carry a move that is under way, or they carry none and neither did the memory:
        a move that was in memory before survives files that know nothing of it. */
    method Ingest(files: Store, ghost h: seq<Edit>) returns (ok: bool)
      requires Lossless(codec) && Tidy(files) && Holds(files, h)
      requires forall i :: 0 <= i < |h| ==> EditOk(h[i])
      modifies this
      ensures store == files && Reflects(h)
      ensures ok <==> Rebuilt(files, codec).Some?
      ensures !ok ==> core == old(core)
      ensures ok ==> core == CoreAfter(old(core), Some(Rebuilt(files, codec).value.desc), Rebuilt(files, codec).value.move)
      ensures ok ==> (InSync() <==>
                      match Rebuilt(files, codec).value.move
                      case None => old(core).move.None?
                      case Some(m) => !Ended(m))
    {
      store := files;
      var desc := ReadDescriptor(store, codec);
      var readable, move := ReadMoveState(store, codec);
      ok := desc.Some? && readable;
      if ok {
        ApplyCoreStates(desc, move);
      }
    }

    /** `get`: the newest version of the key. */
    method Get(shard: nat, key: ByteString, ghost h: seq<Edit>) returns (r: Result<Option<Value>>)
      requires Reflects(h) && (shard in core.shards ==> core.shards[shard].collection != LOCAL)
      ensures r.Ok? <==> shard in core.shards
      ensures r.Ok? ==> IsNewest(h, core.shards[shard].collection, key, r.value)
    {
      hide Tidy, Holds, EncodedKey;
      if shard !in core.shards {
        return ShardNotFound(shard);
      }
      var c := core.shards[shard].collection;
      TidyIsValid(store, c);
      var cell := ReadNewest(store, c, key);
      NewestIsEdit(store, h, c, key, cell);
      r := Ok(if cell.None? then None else Some(ValueOf(cell.value)));
    }

    /** `get_all_versions`. */
    method GetAllVersions(shard: nat, key: ByteString, ghost h: seq<Edit>) returns (r: Result<seq<Value>>)
      requires Reflects(h) && (shard in core.shards ==> core.shards[shard].collection != LOCAL)
      ensures r.Ok? <==> shard in core.shards
      ensures r.Ok? ==> AreVersions(h, core.shards[shard].collection, key, r.value)
    {
      hide Tidy, Holds, EncodedKey;
      if shard !in core.shards {
        return ShardNotFound(shard);
      }
      var c := core.shards[shard].collection;
      TidyIsValid(store, c);
      var cells := ReadAllVersions(store, c, key);
      VersionsAreEdits(store, h, c, key, cells);
      var values: seq<Value> := [];
      for i := 0 to |cells|
        invariant values == seq(i, j requires 0 <= j < i => ValueOf(cells[j]))
      {
        values := values + [ValueOf(cells[i])];
      }
      r := Ok(values);
    }
  }

  // ---- Reading back ----

  /** `internal::descriptor`; `None` where it panics or fails. */
  method ReadDescriptor(store: Store, codec: Codec) returns (desc: Option<GroupDesc>)
    ensures desc == Persisted(store, DESCRIPTOR, codec.readDesc)
  {
    if LocalKey(DESCRIPTOR) !in store {
      return None;
    }
    desc := codec.readDesc(store[LocalKey(DESCRIPTOR)]);
  }

  /** `internal::move_shard_state`: there need not be one. */
  method ReadMoveState(store: Store, codec: Codec) returns (readable: bool, move: Option<MoveState>)
    ensures readable <==> (LocalKey(MIGRATE_STATE) in store ==> Persisted(store, MIGRATE_STATE, codec.readMove).Some?)
    ensures move == Persisted(store, MIGRATE_STATE, codec.readMove)
  {
    if LocalKey(MIGRATE_STATE) !in store {
      return true, None;
    }
    move := codec.readMove(store[LocalKey(MIGRATE_STATE)]);
    readable := move.Some?;
  }

  /** `internal::shard_descs`. */
  method CollectShards(shards: seq<Shard>) returns (m: map<nat, Shard>)
    ensures m == ById(shards)
  {
    m := map[];
    for i := 0 to |shards|
      invariant m == ById(shards[..i])
    {
      assert shards[..i + 1][..i] == shards[..i];
      m := m[shards[i].id := shards[i]];
    }
    assert shards[..|shards|] == shards;
  }

  datatype OpenResult = NoColumnFamily | Unreadable | Opened(engine: Engine)

  /** `open`: nothing without a column family, a failure exactly where descriptor or move state
      cannot be read, and otherwise a memory that is in step with the column family and holds
      the shards of the group and the shard being moved. */
  method Open(codec: Codec, cf: Option<Store>, ghost h: seq<Edit>) returns (r: OpenResult)
    requires Lossless(codec)
    ensures r == NoColumnFamily <==> cf.None?
    ensures r == Unreadable <==> cf.Some? && Rebuilt(cf.value, codec).None?
    ensures r.Opened? ==>
              && fresh(r.engine) && r.engine.codec == codec && r.engine.store == cf.value && r.engine.InSync()
              && (Tidy(cf.value) && Holds(cf.value, h) && (forall i :: 0 <= i < |h| ==> EditOk(h[i])) ==>
                    r.engine.Reflects(h))
  {
    hide Tidy, Holds, Lossless, LocalKey;
    if cf.None? {
      return NoColumnFamily;
    }
    var store := cf.value;
    var desc := ReadDescriptor(store, codec);
    var readable, move := ReadMoveState(store, codec);
    if desc.None? || !readable {
      return Unreadable;
    }
    var shards := CollectShards(desc.value.shards);
    if move.Some? && move.value.shard.id !in shards {
      shards := shards[move.value.shard.id := move.value.shard];
    }
    var engine := new Engine.WithCore(codec, store, Core(desc.value, shards, move));
    r := Opened(engine);
  }

  /** Files of a replica that knows of no move, ingested while one is under way in memory: the
      move stays in memory, and a reopened engine would not have it. */
  method IngestKeepsOldMove(codec: Codec, shard: Shard) returns (e: Engine)
    requires Lossless(codec)
    ensures e.core.move == Some(MoveState(shard, Moving)) && !e.InSync()
    ensures Rebuilt(e.store, codec).Some? && Rebuilt(e.store, codec).value.move == None
  {
    hide Tidy, Holds, Lossless, LocalKey;
    var other := new Engine.Create(codec, 1);
    e := new Engine.Create(codec, 1);
    EmptyOps();
    e.GroupCommit([], WriteStates(None, None, Some(MoveState(shard, Moving))), [], []);
    var ok := e.Ingest(other.store, []);
  }

  lemma EmptyOps()
    ensures Flatten([]) == OpsOf([])
  {
  }

  /** One batch applied operation by operation, after what was applied already. */
  method StageOne(base: Store, ghost done: seq<BatchOp>, start: Store, wb: seq<BatchOp>) returns (staged: Store)
    requires start == ApplyOps(base, done)
    ensures staged == ApplyOps(base, done + wb)
  {
    staged := start;
    assert done + wb[..0] == done;
    for j := 0 to |wb|
      invariant staged == ApplyOps(base, done + wb[..j])
    {
      NextOp(base, done, wb, j);
      staged := ApplyOp(staged, wb[j]);
    }
    assert wb[..|wb|] == wb;
  }

  lemma NextOp(base: Store, done: seq<BatchOp>, wb: seq<BatchOp>, j: nat)
    requires j < |wb|
    ensures ApplyOps(base, done + wb[..j + 1]) == ApplyOp(ApplyOps(base, done + wb[..j]), wb[j])
  {
    var ops := done + wb[..j + 1];
    assert ops[..|ops| - 1] == done + wb[..j];
  }

  /** The write batches of a group commit merged into one. */
  method Stage(store: Store, wbs: seq<seq<BatchOp>>) returns (staged: Store)
    ensures staged == ApplyOps(store, Flatten(wbs))
  {
    staged := store;
    for i := 0 to |wbs|
      invariant staged == ApplyOps(store, Flatten(wbs[..i]))
    {
      staged := StageOne(store, Flatten(wbs[..i]), staged, wbs[i]);
      assert wbs[..i + 1][..i] == wbs[..i];
    }
    assert wbs[..|wbs|] == wbs;
  }

  datatype Commit = Commit(edits: seq<Edit>, states: WriteStates)

  /** All edits of some commits, in order. */
  function EditsOf(commits: seq<Commit>): seq<Edit> {
    if commits == [] then [] else EditsOf(commits[..|commits| - 1]) + commits[|commits| - 1].edits
  }

  /** The last state of a kind among some commits. */
  function LastDesc(commits: seq<Commit>): Option<GroupDesc> {
    if commits == [] then None else Or(commits[|commits| - 1].states.desc, LastDesc(commits[..|commits| - 1]))
  }

  function LastMove(commits: seq<Commit>): Option<MoveState> {
    if commits == [] then None else MoveAfter(LastMove(commits[..|commits| - 1]), commits[|commits| - 1].states.move)
  }

  /** The descriptor after some commits is the one of the last commit that carries one. */
  lemma {:induction false} LastDescIs(commits: seq<Commit>, i: nat)
    requires i < |commits| && commits[i].states.desc.Some?
    requires forall j :: i < j < |commits| ==> commits[j].states.desc.None?
    ensures LastDesc(commits) == commits[i].states.desc
  {
    var n := |commits| - 1;
    if i < n { LastDescIs(commits[..n], i); }
  }

  /** Likewise for the move, which is gone once it is reported as ended. */
  lemma {:induction false} LastMoveIs(commits: seq<Commit>, i: nat)
    requires i < |commits| && commits[i].states.move.Some?
    requires forall j :: i < j < |commits| ==> commits[j].states.move.None?
    ensures LastMove(commits) ==
            if commits[i].states.move.value.step in {Finished, Aborted} then None else commits[i].states.move
  {
    var n := |commits| - 1;
    if i < n { LastMoveIs(commits[..n], i); }
  }

  /** A whole run: an engine created and committed to any number of times, then opened again from
      its column family. Both instances hold the same memory and the same data, given by the
      last descriptor, the last move that has not ended, and all edits. */
  method CommitAndReopen(codec: Codec, group: nat, commits: seq<Commit>) returns (e: Engine, reopened: Engine)
    requires Lossless(codec)
    requires forall i, j :: 0 <= i < |commits| && 0 <= j < |commits[i].edits| ==> EditOk(commits[i].edits[j])
    ensures reopened.core == e.core && reopened.store == e.store
    ensures Some(e.core.desc) == Or(LastDesc(commits), Some(GroupDesc(group, INITIAL_EPOCH, [], [])))
    ensures e.core.move == LastMove(commits)
    ensures e.Reflects(EditsOf(commits)) && reopened.Reflects(EditsOf(commits))
  {
    hide Tidy, Holds, Rebuilt, Lossless;
    e := new Engine.Create(codec, group);
    for i := 0 to |commits|
      invariant fresh(e) && e.codec == codec && e.InSync() && e.Reflects(EditsOf(commits[..i]))
      invariant Some(e.core.desc) == Or(LastDesc(commits[..i]), Some(GroupDesc(group, INITIAL_EPOCH, [], [])))
      invariant e.core.move == LastMove(commits[..i])
    {
      assert commits[..i + 1][..i] == commits[..i];
      var wbs := [OpsOf(commits[i].edits)];
      assert Flatten(wbs) == OpsOf(commits[i].edits);
      e.GroupCommit(wbs, commits[i].states, EditsOf(commits[..i]), commits[i].edits);
    }
    assert commits[..|commits|] == commits;
    var outcome := Open(codec, Some(e.store), EditsOf(commits));
    reopened := outcome.engine;
  }
}
