/** Intents in the multi-version store: the batches of replica/eval/cmd_txn.rs write what the
    transaction protocol does to its abstract state, and `read_key` of replica/eval/cmd_get.rs and
    `read_intent_and_next_key` read it back through the iterator. */
module IntentStore {
  import opened Bytes
  import opened MvccKeys
  import opened MvccSnapshot
  import opened Options
  import opened RawDb
  import opened ShardRange
  import GroupEngine
  import Intents

  /** TXN_INTENT_VERSION. */
  const INTENT_VERSION: U64 := U64_MAX

  /** Protobuf encoding of intents. */
  datatype Codec = Codec(write: Intents.Intent -> ByteString, read: ByteString -> Option<Intents.Intent>)

  ghost predicate Lossless(codec: Codec) {
    forall i {:trigger codec.write(i)} :: codec.read(codec.write(i)) == Some(i)
  }

  /** A collection of the store holds the intents and the stored versions of a state: an intent as
      data under the highest version, the others under their own. */
  ghost predicate Encodes(store: Store, collection: U64, s: Intents.State, codec: Codec) {
    && StoreValid(store, collection) && Lossless(codec)
    && (forall k: ByteString, v: nat :: (k, v) in s.cells ==> k != [] && v < INTENT_VERSION)
    && (forall k: ByteString, v: U64 {:trigger EncodedKey(collection, k, v)} :: k != [] && v < INTENT_VERSION ==>
          var e := EncodedKey(collection, k, v);
          && (e in store <==> (k, v) in s.cells)
          && (e in store ==> store[e] == GroupEngine.ValueBytes(s.cells[(k, v)])))
    && (forall k: ByteString :: k in s.intents ==> k != [])
    && (forall k: ByteString :: k != [] ==>
          var e := EncodedKey(collection, k, INTENT_VERSION);
          && (e in store <==> k in s.intents)
          && (e in store ==> store[e] == GroupEngine.ValueBytes(Some(codec.write(s.intents[k])))))
  }

  /** The newest version up to `r` is the one no other lies above. */
  lemma CellViewIs(cells: map<(ByteString, nat), Intents.Content>, k: ByteString, r: int, found: Option<Intents.Value>)
    requires found.Some? ==>
               && (k, found.value.version) in cells && cells[(k, found.value.version)] == found.value.content
               && found.value.version <= r
    requires forall v: nat :: v <= r && (k, v) in cells ==> found.Some? && v <= found.value.version
    ensures Intents.CellView(cells, k, r) == found
  {
    var at := (v: nat) => Intents.CellAt(cells, k, v);
    Intents.LatestIs(at, r);
    if found.Some? { assert at(found.value.version).Some?; }
    var view := Intents.CellView(cells, k, r);
    if view.Some? { assert at(view.value.version).Some?; }
  }

  /** What the next entry of the inner iterator means. */
  lemma EntryMeans(store: Store, collection: U64, s: Intents.State, codec: Codec, k: ByteString, last: Option<int>,
                   cell: Option<Cell>)
    requires Encodes(store, collection, s, codec) && IsNextVersion(store, collection, k, last, cell)
    ensures cell.Some? ==> 0 <= cell.value.version && cell.value.value != [] && Older(cell.value.version, last)
    ensures cell.Some? && cell.value.version == INTENT_VERSION ==>
              k in s.intents && GroupEngine.ContentOf(cell.value.value) == Some(codec.write(s.intents[k]))
    ensures cell.Some? && cell.value.version != INTENT_VERSION ==>
              && (k, cell.value.version) in s.cells
              && GroupEngine.ContentOf(cell.value.value) == s.cells[(k, cell.value.version)]
    ensures forall v: nat :: (k, v) in s.cells && Older(v, last) ==> cell.Some? && v <= cell.value.version
    ensures k in s.intents && last.None? ==> cell.Some? && cell.value.version == INTENT_VERSION
  {
    hide EncodedKey, StoreValid;
    forall v: nat | (k, v) in s.cells && Older(v, last) ensures cell.Some? && v <= cell.value.version {
      assert Stored(store, collection, k, v);
    }
    if k in s.intents { assert Stored(store, collection, k, INTENT_VERSION); }
  }

  lemma NothingStored(store: Store, collection: U64, s: Intents.State, codec: Codec, k: ByteString)
    requires Encodes(store, collection, s, codec) && forall v: U64 :: !Stored(store, collection, k, v)
    ensures k !in s.intents && forall v: nat :: (k, v) !in s.cells
  {
    hide EncodedKey, StoreValid;
    assert k in s.intents ==> Stored(store, collection, k, INTENT_VERSION);
    assert forall v: nat :: (k, v) in s.cells ==> Stored(store, collection, k, v);
  }

  function ValueOf(cell: Cell): Intents.Value
    requires cell.version >= 0 && cell.value != []
  {
    Intents.Value(GroupEngine.ContentOf(cell.value), cell.version)
  }

  /** `read_intent_and_next_key`: the intent on the key, and the newest version below it. */
  method ReadIntentAndNextKey(store: Store, collection: U64, k: ByteString, codec: Codec, ghost s: Intents.State)
    returns (intent: Option<Intents.Intent>, prev: Option<Intents.Value>)
    requires Encodes(store, collection, s, codec)
    ensures intent == if k in s.intents then Some(s.intents[k]) else None
    ensures prev == Intents.CellView(s.cells, k, U64_MAX - 1)
    ensures Intents.Inv(s) && s.next < U64_MAX ==> prev == Intents.CellView(s.cells, k, s.next)
  {
    hide EncodedKey, Snapshot.Valid, Snapshot.LastReturned, StoreValid, IsNextKey, IsNextVersion, Intents.CellView, Intents.Inv;
    if Intents.Inv(s) && s.next < U64_MAX {
      Intents.CellsBelowNext(s, k);
      Intents.CellViewBound(s.cells, k, s.next, U64_MAX - 1);
    }
    assert StoreValid(store, collection);
    var snapshot := new Snapshot(store, Shard(0, collection, None), Key(k));
    var found := snapshot.Next();
    TargetKey(store, collection, k, found);
    if found.None? {
      NothingStored(store, collection, s, codec, k);
      CellViewIs(s.cells, k, U64_MAX - 1, None);
      return None, None;
    }
    var cell := snapshot.NextVersion();
    EntryMeans(store, collection, s, codec, k, None, cell);
    if cell.None? {
      CellViewIs(s.cells, k, U64_MAX - 1, None);
      return None, None;
    }
    if cell.value.version == INTENT_VERSION {
      intent := codec.read(GroupEngine.ContentOf(cell.value.value).value);
      var below := snapshot.NextVersion();
      EntryMeans(store, collection, s, codec, k, Some(cell.value.version), below);
      prev := if below.None? then None else Some(ValueOf(below.value));
    } else {
      intent, prev := None, Some(ValueOf(cell.value));
    }
    CellViewIs(s.cells, k, U64_MAX - 1, prev);
  }

  /** `read_key` at version `r`: the loop over the versions of the key, in which an intent that may be
      visible is resolved to `outcome` in a later state `s'`. It reads what the protocol says. */
  method ReadKey(store: Store, collection: U64, k: ByteString, r: nat, outcome: Option<Intents.Value>, codec: Codec,
                 ghost s: Intents.State, ghost s': Intents.State, ghost waited: bool)
    returns (value: Option<Intents.Value>)
    requires Encodes(store, collection, s, codec)
    requires k in s.intents ==> outcome == Intents.Resolved(s', k, r, s.intents[k], waited)
    ensures value == Intents.ReadKey(s, s', k, r, waited)
  {
    hide EncodedKey, Snapshot.Valid, Snapshot.LastReturned, StoreValid, IsNextKey, IsNextVersion, Intents.CellView;
    assert StoreValid(store, collection);
    var snapshot := new Snapshot(store, Shard(0, collection, None), Key(k));
    var found := snapshot.Next();
    TargetKey(store, collection, k, found);
    if found.None? {
      NothingStored(store, collection, s, codec, k);
      CellViewIs(s.cells, k, r, None);
      return None;
    }
    var cell := snapshot.NextVersion();
    ghost var last: Option<int> := None;
    EntryMeans(store, collection, s, codec, k, last, cell);
    while cell.Some?
      invariant snapshot.Valid() && snapshot.currentKey == Some(k)
      invariant snapshot.store == store && snapshot.collection == collection
      invariant IsNextVersion(store, collection, k, last, cell)
      invariant snapshot.LastReturned() == if cell.Some? then Some(cell.value.version) else last
      invariant forall v: nat :: (k, v) in s.cells && !Older(v, last) ==> v > r
      invariant last.Some? && k in s.intents && s.intents[k].start <= r ==>
                  !(outcome.Some? && outcome.value.version <= r)
      decreases if cell.Some? then cell.value.version + 1 else 0
    {
      EntryMeans(store, collection, s, codec, k, last, cell);
      if cell.value.version == INTENT_VERSION {
        var intent := codec.read(GroupEngine.ContentOf(cell.value.value).value).value;
        if intent.start <= r && outcome.Some? && outcome.value.version <= r {
          return outcome;
        }
      } else if cell.value.version <= r {
        CellViewIs(s.cells, k, r, Some(ValueOf(cell.value)));
        return Some(ValueOf(cell.value));
      }
      last := Some(cell.value.version);
      cell := snapshot.NextVersion();
      EntryMeans(store, collection, s, codec, k, last, cell);
    }
    EntryMeans(store, collection, s, codec, k, last, cell);
    CellViewIs(s.cells, k, r, None);
    return None;
  }

  // ---- Writing ----

  /** A write of one version of one key leaves every other key of the collection alone. */
  lemma OneKeyWritten(store: Store, collection: U64, op: GroupEngine.BatchOp, k: ByteString, v: U64)
    requires k != [] && op.key == EncodedKey(collection, k, v) && StoreValid(store, collection)
    ensures StoreValid(GroupEngine.ApplyOp(store, op), collection)
    ensures forall k': ByteString, v': U64 {:trigger EncodedKey(collection, k', v')} :: k' != [] && (k', v') != (k, v) ==>
              var e := EncodedKey(collection, k', v');
              && (e in GroupEngine.ApplyOp(store, op) <==> e in store)
              && (e in store ==> GroupEngine.ApplyOp(store, op)[e] == store[e])
  {
    hide EncodedKey;
    forall k': ByteString, v': U64 | k' != [] && (k', v') != (k, v)
      ensures EncodedKey(collection, k', v') != EncodedKey(collection, k, v)
    {
      if EncodedKey(collection, k', v') == EncodedKey(collection, k, v) {
        StoredKeyInjective(collection, k', v', collection, k, v);
      }
    }
    StoredKeyRoundTrip(collection, k, v);
    assert IsMvccKey(collection, op.key);
  }

  /** The batch of `write_intent`: afterwards the store holds the state with the intent placed. */
  lemma PlaceEncodes(store: Store, collection: U64, s: Intents.State, codec: Codec, t: nat, k: ByteString, op: Intents.Op)
    requires Encodes(store, collection, s, codec) && k != [] && t in s.txns
    ensures var put := GroupEngine.PutRaw(EncodedKey(collection, k, INTENT_VERSION),
                                          GroupEngine.ValueBytes(Some(codec.write(Intents.Intent(t, op)))));
            Encodes(GroupEngine.ApplyOp(store, put), collection, Intents.Placed(s, t, k, op), codec)
  {
    hide EncodedKey, StoreValid, GroupEngine.ValueBytes, Intents.CellView;
    var put := GroupEngine.PutRaw(EncodedKey(collection, k, INTENT_VERSION),
                                  GroupEngine.ValueBytes(Some(codec.write(Intents.Intent(t, op)))));
    OneKeyWritten(store, collection, put, k, INTENT_VERSION);
  }

  /** The batch of `commit_intent` and `clear_intent`: the intent goes, and what it says is stored under
      the commit version, if there is one. */
  function SettleBatch(collection: U64, k: ByteString, op: Intents.Op, version: Option<U64>): seq<GroupEngine.BatchOp>
    requires k != []
  {
    [GroupEngine.DeleteRaw(EncodedKey(collection, k, INTENT_VERSION))]
    + if version.Some? && Intents.Written(op).Some?
      then [GroupEngine.PutRaw(EncodedKey(collection, k, version.value), GroupEngine.ValueBytes(Intents.Written(op).value))]
      else []
  }

  /** The batch in bytes: the intent is deleted, and an assignment stores its data, a deletion a tombstone,
      a no-op nothing. */
  lemma SettleBatchIs(collection: U64, k: ByteString, x: ByteString, v: U64)
    requires k != []
    ensures var gone, key := GroupEngine.DeleteRaw(EncodedKey(collection, k, U64_MAX)), EncodedKey(collection, k, v);
            && SettleBatch(collection, k, Intents.Assign(x), Some(v)) == [gone, GroupEngine.PutRaw(key, [0] + x)]
            && SettleBatch(collection, k, Intents.Remove, Some(v)) == [gone, GroupEngine.PutRaw(key, [1])]
            && SettleBatch(collection, k, Intents.Nop, Some(v)) == [gone]
            && (forall op :: SettleBatch(collection, k, op, None) == [gone])
  {
  }

  lemma SettleEncodes(store: Store, collection: U64, s: Intents.State, codec: Codec, k: ByteString, version: Option<U64>)
    requires Encodes(store, collection, s, codec) && k in s.intents && (version.Some? ==> version.value < INTENT_VERSION)
    ensures k != []
    ensures Encodes(GroupEngine.ApplyOps(store, SettleBatch(collection, k, s.intents[k].op, version)), collection,
                    Intents.Settled(s, k, version), codec)
  {
    hide Encodes, EncodedKey, GroupEngine.ValueBytes;
    ClearEncodes(store, collection, s, codec, k);
    var batch := SettleBatch(collection, k, s.intents[k].op, version);
    assert batch[..1][..0] == [] && GroupEngine.ApplyOps(store, batch[..1]) == GroupEngine.ApplyOp(store, batch[0]);
    if |batch| == 2 {
      StoreEncodes(GroupEngine.ApplyOp(store, batch[0]), collection, s.(intents := s.intents - {k}), codec, k,
                   version.value, Intents.Written(s.intents[k].op).value);
    }
  }

  lemma ClearEncodes(store: Store, collection: U64, s: Intents.State, codec: Codec, k: ByteString)
    requires Encodes(store, collection, s, codec) && k in s.intents
    ensures k != []
    ensures Encodes(GroupEngine.ApplyOp(store, GroupEngine.DeleteRaw(EncodedKey(collection, k, INTENT_VERSION))), collection,
                    s.(intents := s.intents - {k}), codec)
  {
    hide EncodedKey, StoreValid, GroupEngine.ValueBytes;
    OneKeyWritten(store, collection, GroupEngine.DeleteRaw(EncodedKey(collection, k, INTENT_VERSION)), k, INTENT_VERSION);
  }

  lemma StoreEncodes(store: Store, collection: U64, s: Intents.State, codec: Codec, k: ByteString, v: U64,
                     content: Intents.Content)
    requires Encodes(store, collection, s, codec) && k != [] && v < INTENT_VERSION
    ensures Encodes(GroupEngine.ApplyOp(store, GroupEngine.PutRaw(EncodedKey(collection, k, v), GroupEngine.ValueBytes(content))),
                    collection, s.(cells := s.cells[(k, v) := content]), codec)
  {
    hide EncodedKey, StoreValid, GroupEngine.ValueBytes;
    OneKeyWritten(store, collection, GroupEngine.PutRaw(EncodedKey(collection, k, v), GroupEngine.ValueBytes(content)), k, v);
  }

  // ---- Whole runs ----

  /** The batch that a step writes: nothing where the request is refused, repeated or has to wait, and
      nothing for steps that concern the transaction table or the allocation of ids. */
  function BatchOf(collection: U64, s: Intents.State, step: Intents.Step, codec: Codec): seq<GroupEngine.BatchOp> {
    match step
    case WriteIntent(t, k, eval) =>
      var op := eval(Intents.CellView(s.cells, k, s.next));
      if k != [] && Intents.Preparing(s, t) && k !in s.intents && op.Some? then
        [GroupEngine.PutRaw(EncodedKey(collection, k, INTENT_VERSION),
                            GroupEngine.ValueBytes(Some(codec.write(Intents.Intent(t, op.value)))))]
      else []
    case CommitIntent(t, k) =>
      if k != [] && Intents.Holds(s, t, k) && s.txns[t].record.Committed? && s.txns[t].record.version < TWO_64
      then SettleBatch(collection, k, s.intents[k].op, Some(s.txns[t].record.version)) else []
    case ClearIntent(t, k) =>
      if k != [] && Intents.Holds(s, t, k) && s.txns[t].record.Aborted?
      then SettleBatch(collection, k, s.intents[k].op, None) else []
    case _ => []
  }

  /** Requests name keys that are not empty. */
  predicate KeyGiven(step: Intents.Step) {
    step.WriteIntent? ==> step.key != []
  }

  /** The store after the batches of some steps. */
  function StoreAfter(store: Store, collection: U64, s: Intents.State, steps: seq<Intents.Step>, codec: Codec): Store {
    if steps == [] then store
    else
      var n := |steps| - 1;
      GroupEngine.ApplyOps(StoreAfter(store, collection, s, steps[..n], codec),
                           BatchOf(collection, Intents.Run(s, steps[..n]), steps[n], codec))
  }

  lemma StepEncodes(store: Store, collection: U64, s: Intents.State, step: Intents.Step, codec: Codec)
    requires Encodes(store, collection, s, codec) && Intents.Inv(s) && s.next <= INTENT_VERSION && KeyGiven(step)
    ensures Encodes(GroupEngine.ApplyOps(store, BatchOf(collection, s, step, codec)), collection, Intents.Do(s, step), codec)
  {
    hide Encodes, EncodedKey, GroupEngine.ValueBytes, Intents.CellView, Intents.Settled, Intents.Placed, SettleBatch, Intents.Inv;
    NoOps(store);
    match step {
      case WriteIntent(t, k, eval) => WriteEncodes(store, collection, s, t, k, eval, codec);
      case CommitIntent(t, k) => CommitEncodes(store, collection, s, t, k, codec);
      case ClearIntent(t, k) =>
        if Intents.Holds(s, t, k) && s.txns[t].record.Aborted? { SettleEncodes(store, collection, s, codec, k, None); }
      case _ => SameKeysEncode(store, collection, s, Intents.Do(s, step), codec);
    }
  }

  lemma CommitEncodes(store: Store, collection: U64, s: Intents.State, t: nat, k: ByteString, codec: Codec)
    requires Encodes(store, collection, s, codec) && Intents.Inv(s) && s.next <= INTENT_VERSION
    ensures var step := Intents.CommitIntent(t, k);
            Encodes(GroupEngine.ApplyOps(store, BatchOf(collection, s, step, codec)), collection, Intents.Do(s, step), codec)
  {
    hide Encodes, EncodedKey, GroupEngine.ValueBytes, Intents.Settled, SettleBatch;
    hide Intents.WritesOk, Intents.IntentsOk, Intents.CellsOk, Intents.DistinctVersions;
    NoOps(store);
    if Intents.Holds(s, t, k) && s.txns[t].record.Committed? {
      assert Intents.TxnOk(s, t);
      SettleEncodes(store, collection, s, codec, k, Some(s.txns[t].record.version));
    }
  }

  lemma WriteEncodes(store: Store, collection: U64, s: Intents.State, t: nat, k: ByteString,
                     eval: Option<Intents.Value> -> Option<Intents.Op>, codec: Codec)
    requires Encodes(store, collection, s, codec) && k != []
    ensures var step := Intents.WriteIntent(t, k, eval);
            Encodes(GroupEngine.ApplyOps(store, BatchOf(collection, s, step, codec)), collection, Intents.Do(s, step), codec)
  {
    hide Encodes, EncodedKey, GroupEngine.ValueBytes, Intents.CellView, Intents.Placed;
    NoOps(store);
    var op := eval(Intents.CellView(s.cells, k, s.next));
    if Intents.Preparing(s, t) && k !in s.intents && op.Some? {
      PlaceEncodes(store, collection, s, codec, t, k, op.value);
      OneOp(store, BatchOf(collection, s, Intents.WriteIntent(t, k, eval), codec)[0]);
    }
  }

  lemma NoOps(store: Store)
    ensures GroupEngine.ApplyOps(store, []) == store
  {
  }

  lemma OneOp(store: Store, op: GroupEngine.BatchOp)
    ensures GroupEngine.ApplyOps(store, [op]) == GroupEngine.ApplyOp(store, op)
  {
    assert [op][..0] == [];
  }

  lemma SameKeysEncode(store: Store, collection: U64, s: Intents.State, s': Intents.State, codec: Codec)
    requires Encodes(store, collection, s, codec) && s'.cells == s.cells && s'.intents == s.intents
    ensures Encodes(store, collection, s', codec)
  {
  }

  /** Over every run whose ids stay below the version of intents, the batches of the steps leave a store
      that holds the state of the protocol. */
  lemma {:induction false} RunEncodes(store: Store, collection: U64, s: Intents.State, steps: seq<Intents.Step>, codec: Codec)
    requires Encodes(store, collection, s, codec) && Intents.Inv(s)
    requires Intents.Run(s, steps).next <= INTENT_VERSION && forall i :: 0 <= i < |steps| ==> KeyGiven(steps[i])
    ensures Encodes(StoreAfter(store, collection, s, steps, codec), collection, Intents.Run(s, steps), codec)
  {
    hide Encodes, Intents.Inv, BatchOf, GroupEngine.ApplyOps;
    if steps != [] {
      var n := |steps| - 1;
      var before := Intents.Run(s, steps[..n]);
      Intents.RunKeepsInv(s, steps[..n]);
      Intents.StepSince(before, steps[n]);
      Intents.NextKept(before, Intents.Run(s, steps));
      RunEncodes(store, collection, s, steps[..n], codec);
      StepEncodes(StoreAfter(store, collection, s, steps[..n], codec), collection, before, steps[n], codec);
    }
  }

  /** From the empty store, whatever clients and resolvers do. */
  lemma EveryRunEncodes(collection: U64, steps: seq<Intents.Step>, codec: Codec)
    requires Lossless(codec) && Intents.Run(Intents.Init(), steps).next <= INTENT_VERSION
    requires forall i :: 0 <= i < |steps| ==> KeyGiven(steps[i])
    ensures Encodes(StoreAfter(map[], collection, Intents.Init(), steps, codec), collection,
                    Intents.Run(Intents.Init(), steps), codec)
  {
    Intents.InitInv();
    RunEncodes(map[], collection, Intents.Init(), steps, codec);
  }
}
