/** Transactions over many keys: write intents, the transaction records that decide them, and reads
    at a version (replica/eval/cmd_txn.rs, cmd_get.rs and latch.rs, client/src/write_batch.rs).

    A request on a key is evaluated and applied under the key's latch, so it is one step here; the
    transaction record is changed by one conditional write. Any interleaving of steps, by any
    number of clients and resolvers, is a run. */
module Intents {
  import opened Bytes
  import opened Options

  type Key = ByteString
  type Content = Option<ByteString>        // `None` is a tombstone

  datatype Value = Value(content: Content, version: nat)

  /** What an intent will do to its key; `Nop` only held the key while conditions were checked. */
  datatype Op = Assign(value: ByteString) | Remove | Nop

  datatype Intent = Intent(start: nat, op: Op)

  datatype Record = Running | Committed(version: nat) | Aborted

  /** A transaction: its record, the commit version its client has drawn, the intents accepted so
      far and the newest value each of them was evaluated against. */
  datatype Txn = Txn(record: Record, version: Option<nat>, writes: map<Key, Op>, seen: map<Key, Option<Value>>)

  datatype State = State(
    next: nat,                             // transaction ids are drawn in ascending order
    txns: map<nat, Txn>,
    intents: map<Key, Intent>,             // stored under TXN_INTENT_VERSION
    cells: map<(Key, nat), Content>)

  datatype Step =
    | Begin
    | WriteIntent(t: nat, key: Key, eval: Option<Value> -> Option<Op>)   // conditions and put type; `None` refuses
    | DrawVersion(t: nat)
    | CommitRecord(t: nat)
    | AbortRecord(t: nat)
    | CommitIntent(t: nat, key: Key)
    | ClearIntent(t: nat, key: Key)

  function Written(op: Op): Option<Content> {
    match op case Assign(v) => Some(Some(v)) case Remove => Some(None) case Nop => None
  }

  // ---- Newest versions ----

  /** The newest value with a version up to `s`. */
  function Latest(at: nat -> Option<Content>, s: int): Option<Value>
    decreases s + 1
  {
    if s < 0 then None
    else if at(s).Some? then Some(Value(at(s).value, s))
    else Latest(at, s - 1)
  }

  lemma {:induction false} LatestIs(at: nat -> Option<Content>, s: int)
    ensures var r := Latest(at, s);
            && (r.Some? ==> r.value.version <= s && at(r.value.version) == Some(r.value.content))
            && (forall v: nat :: v <= s && at(v).Some? ==> r.Some? && v <= r.value.version)
    decreases s + 1
  {
    if s >= 0 && at(s).None? { LatestIs(at, s - 1); }
  }

  lemma {:induction false} LatestAgrees(f: nat -> Option<Content>, g: nat -> Option<Content>, s: int)
    requires forall v: nat :: v <= s ==> f(v) == g(v)
    ensures Latest(f, s) == Latest(g, s)
    decreases s + 1
  {
    if s >= 0 { LatestAgrees(f, g, s - 1); }
  }

  function CellAt(cells: map<(Key, nat), Content>, k: Key, v: nat): Option<Content> {
    if (k, v) in cells then Some(cells[(k, v)]) else None
  }

  /** The newest stored version of a key up to `s`, intents aside. */
  function CellView(cells: map<(Key, nat), Content>, k: Key, s: int): Option<Value> {
    Latest((v: nat) => CellAt(cells, k, v), s)
  }

  // ---- Steps ----

  function Init(): State {
    State(0, map[], map[], map[])
  }

  /** `begin_txn` under an id just drawn. */
  function Started(s: State): State {
    s.(next := s.next + 1, txns := s.txns[s.next := Txn(Running, None, map[], map[])])
  }

  /** `write_intent` on a key without an intent, once conditions and put type are evaluated. */
  function Placed(s: State, t: nat, k: Key, op: Op): State
    requires t in s.txns
  {
    var txn := s.txns[t];
    var prev := CellView(s.cells, k, s.next);
    s.(intents := s.intents[k := Intent(t, op)],
       txns := s.txns[t := txn.(writes := txn.writes[k := op], seen := txn.seen[k := prev])])
  }

  function Drawn(s: State, t: nat): State
    requires t in s.txns
  {
    s.(next := s.next + 1, txns := s.txns[t := s.txns[t].(version := Some(s.next))])
  }

  function Decided(s: State, t: nat, record: Record): State
    requires t in s.txns
  {
    s.(txns := s.txns[t := s.txns[t].(record := record)])
  }

  /** The intent goes; what it says is stored under `version` if there is one. */
  function Settled(s: State, k: Key, version: Option<nat>): State
    requires k in s.intents
  {
    var w := Written(s.intents[k].op);
    s.(intents := s.intents - {k},
       cells := if version.Some? && w.Some? then s.cells[(k, version.value) := w.value] else s.cells)
  }

  /** A transaction may still send intents: its client has not drawn a commit version. */
  predicate Preparing(s: State, t: nat) {
    t in s.txns && s.txns[t].version.None?
  }

  predicate Holds(s: State, t: nat, k: Key) {
    t in s.txns && k in s.intents && s.intents[k].start == t
  }

  /** One step; it changes nothing where the request is refused, repeated or has to wait. */
  function Do(s: State, step: Step): State {
    match step
    case Begin => Started(s)
    case WriteIntent(t, k, eval) =>
      var op := eval(CellView(s.cells, k, s.next));
      if Preparing(s, t) && k !in s.intents && op.Some? then Placed(s, t, k, op.value) else s
    case DrawVersion(t) => if Preparing(s, t) then Drawn(s, t) else s
    case CommitRecord(t) =>
      if t in s.txns && s.txns[t].version.Some? && s.txns[t].record.Running?
      then Decided(s, t, Committed(s.txns[t].version.value)) else s
    case AbortRecord(t) => if t in s.txns && s.txns[t].record.Running? then Decided(s, t, Aborted) else s
    case CommitIntent(t, k) =>
      if Holds(s, t, k) && s.txns[t].record.Committed? then Settled(s, k, Some(s.txns[t].record.version)) else s
    case ClearIntent(t, k) => if Holds(s, t, k) && s.txns[t].record.Aborted? then Settled(s, k, None) else s
  }

  function Run(s: State, steps: seq<Step>): State {
    if steps == [] then s else Do(Run(s, steps[..|steps| - 1]), steps[|steps| - 1])
  }

  // ---- Invariant ----

  ghost predicate CommittedAt(s: State, t: nat, v: nat, k: Key) {
    t in s.txns && s.txns[t].record == Committed(v) && k in s.txns[t].writes
  }

  ghost predicate TxnOk(s: State, t: nat)
    requires t in s.txns
  {
    var txn := s.txns[t];
    && t < s.next && txn.writes.Keys == txn.seen.Keys
    && (txn.version.Some? ==> t < txn.version.value < s.next)
    && (txn.record.Committed? ==> txn.version == Some(txn.record.version))
  }

  ghost predicate Holding(s: State, t: nat, k: Key)
    requires t in s.txns && k in s.txns[t].writes
  {
    k in s.intents && s.intents[k] == Intent(t, s.txns[t].writes[k])
  }

  /** Until its transaction is decided, an accepted intent stays; once committed, it stays or its
      value is stored. */
  ghost predicate WriteOk(s: State, t: nat, k: Key)
    requires t in s.txns && k in s.txns[t].writes
  {
    match s.txns[t].record
    case Running => Holding(s, t, k)
    case Committed(v) => Holding(s, t, k) || CellAt(s.cells, k, v) == Written(s.txns[t].writes[k])
    case Aborted => true
  }

  /** An intent belongs to a transaction that knows it, was evaluated against what is still the
      newest value, and will commit above every transaction that committed on the key. */
  ghost predicate IntentOk(s: State, k: Key)
    requires k in s.intents
  {
    var t := s.intents[k].start;
    && t in s.txns && k in s.txns[t].writes && s.txns[t].writes[k] == s.intents[k].op
    && k in s.txns[t].seen && s.txns[t].seen[k] == CellView(s.cells, k, s.next)
    && (s.txns[t].version.Some? ==>
          forall t', v': nat :: CommittedAt(s, t', v', k) && t' != t ==> v' < s.txns[t].version.value)
  }

  /** A stored version was written by a committed transaction that has given up its intent. */
  ghost predicate CellOk(s: State, k: Key, v: nat)
    requires (k, v) in s.cells
  {
    && v < s.next
    && exists t :: CommittedAt(s, t, v, k) && Written(s.txns[t].writes[k]) == Some(s.cells[(k, v)])
                   && !(k in s.intents && s.intents[k].start == t)
  }

  ghost predicate DistinctVersions(s: State) {
    forall t, t' :: t in s.txns && t' in s.txns && t != t' && s.txns[t].version.Some? ==>
      s.txns[t].version != s.txns[t'].version
  }

  ghost predicate TxnsOk(s: State) {
    forall t :: t in s.txns ==> TxnOk(s, t)
  }

  ghost predicate WritesOk(s: State) {
    forall t, k :: t in s.txns && k in s.txns[t].writes ==> WriteOk(s, t, k)
  }

  ghost predicate IntentsOk(s: State) {
    forall k :: k in s.intents ==> IntentOk(s, k)
  }

  ghost predicate CellsOk(s: State) {
    forall k, v :: (k, v) in s.cells ==> CellOk(s, k, v)
  }

  ghost predicate Inv(s: State) {
    TxnsOk(s) && WritesOk(s) && IntentsOk(s) && CellsOk(s) && DistinctVersions(s)
  }

  /** The transaction that wrote a stored version. */
  lemma WriterOf(s: State, k: Key, v: nat) returns (t: nat)
    requires CellsOk(s) && (k, v) in s.cells
    ensures v < s.next && CommittedAt(s, t, v, k) && Written(s.txns[t].writes[k]) == Some(s.cells[(k, v)])
    ensures !(k in s.intents && s.intents[k].start == t)
  {
    assert CellOk(s, k, v);
    t :| CommittedAt(s, t, v, k) && Written(s.txns[t].writes[k]) == Some(s.cells[(k, v)])
         && !(k in s.intents && s.intents[k].start == t);
  }

  lemma CellViewBound(cells: map<(Key, nat), Content>, k: Key, a: int, b: int)
    requires a <= b && forall v: nat :: (k, v) in cells ==> v <= a
    ensures CellView(cells, k, a) == CellView(cells, k, b)
    decreases b - a
  {
    if a < b { CellViewBound(cells, k, a, b - 1); }
  }

  lemma CellsBelowNext(s: State, k: Key)
    requires Inv(s)
    ensures forall v: nat :: (k, v) in s.cells ==> v < s.next
  {
  }

  // ---- Every step keeps the invariant ----

  /** Drawing an id leaves intents and stored versions as they are. */
  lemma NextGrows(s: State, s': State)
    requires Inv(s) && s' == s.(next := s.next + 1, txns := s'.txns)
    requires forall t, v, k :: CommittedAt(s', t, v, k) <==> CommittedAt(s, t, v, k)
    requires forall t :: t in s.txns ==> t in s'.txns && s'.txns[t] == s.txns[t].(version := s'.txns[t].version)
    requires forall t :: t in s.txns && s.txns[t].version != s'.txns[t].version ==> s'.txns[t].version == Some(s.next)
    ensures CellsOk(s') && IntentsOk(s')
  {
    hide Latest, WritesOk;
    var n := s.next;
    forall k, v | (k, v) in s'.cells ensures CellOk(s', k, v) {
      var t := WriterOf(s, k, v);
      assert CommittedAt(s', t, v, k);
    }
    forall t, v, k | CommittedAt(s, t, v, k) ensures v < n { assert TxnOk(s, t); }
    forall k | k in s'.intents ensures IntentOk(s', k) {
      assert IntentOk(s, k);
      CellsBelowNext(s, k);
      CellViewBound(s.cells, k, n, n + 1);
    }
  }

  lemma BeginKeeps(s: State)
    requires Inv(s)
    ensures Inv(Started(s))
  {
    hide CellsOk, IntentsOk, Latest, CellView;
    var s' := Started(s);
    forall t | t in s.txns ensures t != s.next { assert TxnOk(s, t); }
    NextGrows(s, s');
    forall t | t in s'.txns ensures TxnOk(s', t) { if t != s.next { assert TxnOk(s, t); } }
    forall t, k | t in s'.txns && k in s'.txns[t].writes ensures WriteOk(s', t, k) { assert WriteOk(s, t, k); }
  }

  lemma PlaceCells(s: State, t: nat, k: Key, op: Op)
    requires TxnsOk(s) && CellsOk(s) && Preparing(s, t) && k !in s.intents
    ensures CellsOk(Placed(s, t, k, op))
  {
    hide Latest;
    var s' := Placed(s, t, k, op);
    forall k', v | (k', v) in s'.cells ensures CellOk(s', k', v) {
      var t' := WriterOf(s, k', v);
      assert TxnOk(s, t');
      assert CommittedAt(s', t', v, k');
    }
  }

  lemma PlaceIntents(s: State, t: nat, k: Key, op: Op)
    requires TxnsOk(s) && IntentsOk(s) && Preparing(s, t) && k !in s.intents
    ensures IntentsOk(Placed(s, t, k, op))
  {
    hide Latest;
    var s' := Placed(s, t, k, op);
    assert TxnOk(s, t);
    forall t', v, k' | CommittedAt(s', t', v, k') ensures CommittedAt(s, t', v, k') { }
    forall k' | k' in s'.intents ensures IntentOk(s', k') {
      if k' != k { assert IntentOk(s, k'); }
    }
  }

  lemma PlaceKeeps(s: State, t: nat, k: Key, op: Op)
    requires Inv(s) && Preparing(s, t) && k !in s.intents
    ensures Inv(Placed(s, t, k, op))
  {
    hide CellsOk, IntentsOk, Latest;
    var s' := Placed(s, t, k, op);
    PlaceCells(s, t, k, op);
    PlaceIntents(s, t, k, op);
    forall t' | t' in s'.txns ensures TxnOk(s', t') { assert TxnOk(s, t'); }
    forall t', k' | t' in s'.txns && k' in s'.txns[t'].writes ensures WriteOk(s', t', k') {
      if t' == t { assert TxnOk(s, t); }
      if !(t' == t && k' == k) { assert WriteOk(s, t', k'); }
    }
  }

  lemma DrawKeeps(s: State, t: nat)
    requires Inv(s) && Preparing(s, t)
    ensures Inv(Drawn(s, t))
  {
    hide CellsOk, IntentsOk, Latest, CellView;
    var s' := Drawn(s, t);
    assert TxnOk(s, t);
    NextGrows(s, s');
    forall t' | t' in s'.txns ensures TxnOk(s', t') { assert TxnOk(s, t'); }
    forall t', k | t' in s'.txns && k in s'.txns[t'].writes ensures WriteOk(s', t', k) { assert WriteOk(s, t', k); }
  }

  lemma DecideCells(s: State, t: nat, record: Record)
    requires CellsOk(s) && t in s.txns && s.txns[t].record.Running?
    ensures CellsOk(Decided(s, t, record))
  {
    var s' := Decided(s, t, record);
    forall k, v | (k, v) in s'.cells ensures CellOk(s', k, v) {
      var t' := WriterOf(s, k, v);
      assert CommittedAt(s', t', v, k);
    }
  }

  lemma DecideIntents(s: State, t: nat, record: Record)
    requires WritesOk(s) && IntentsOk(s) && t in s.txns && s.txns[t].record.Running?
    ensures IntentsOk(Decided(s, t, record))
  {
    hide Latest;
    var s' := Decided(s, t, record);
    forall t', v, k | CommittedAt(s', t', v, k) ensures CommittedAt(s, t', v, k) || t' == t { }
    forall k | k in s'.intents ensures IntentOk(s', k) {
      assert IntentOk(s, k);
      if k in s.txns[t].writes { assert WriteOk(s, t, k); }
    }
  }

  lemma DecideKeeps(s: State, t: nat, record: Record)
    requires Inv(s) && t in s.txns && s.txns[t].record.Running?
    requires record == Aborted || (s.txns[t].version.Some? && record == Committed(s.txns[t].version.value))
    ensures Inv(Decided(s, t, record))
  {
    hide CellsOk, IntentsOk, Latest, CellView;
    var s' := Decided(s, t, record);
    DecideCells(s, t, record);
    DecideIntents(s, t, record);
    assert TxnOk(s, t);
    forall t' | t' in s'.txns ensures TxnOk(s', t') { assert TxnOk(s, t'); }
    forall t', k | t' in s'.txns && k in s'.txns[t'].writes ensures WriteOk(s', t', k) { assert WriteOk(s, t', k); }
  }

  /** The intent of `t` on `k` may be settled this way. */
  ghost predicate MaySettle(s: State, t: nat, k: Key, version: Option<nat>) {
    && Holds(s, t, k)
    && match version case None => s.txns[t].record.Aborted? case Some(v) => s.txns[t].record == Committed(v)
  }

  lemma SettleCells(s: State, t: nat, k: Key, version: Option<nat>)
    requires TxnsOk(s) && IntentsOk(s) && CellsOk(s) && MaySettle(s, t, k, version)
    ensures CellsOk(Settled(s, k, version))
  {
    hide Latest;
    var s' := Settled(s, k, version);
    assert TxnOk(s, t) && IntentOk(s, k);
    forall k', v | (k', v) in s'.cells ensures CellOk(s', k', v) {
      if k' == k && version == Some(v) && Written(s.intents[k].op).Some? {
        assert CommittedAt(s', t, v, k);
      } else {
        var t' := WriterOf(s, k', v);
        assert CommittedAt(s', t', v, k');
      }
    }
  }

  lemma SettleIntents(s: State, t: nat, k: Key, version: Option<nat>)
    requires IntentsOk(s) && MaySettle(s, t, k, version)
    ensures IntentsOk(Settled(s, k, version))
  {
    hide Latest;
    var s' := Settled(s, k, version);
    forall t', v, k' | CommittedAt(s', t', v, k') ensures CommittedAt(s, t', v, k') { }
    forall k' | k' in s'.intents ensures IntentOk(s', k') {
      assert IntentOk(s, k');
      LatestAgrees((v: nat) => CellAt(s.cells, k', v), (v: nat) => CellAt(s'.cells, k', v), s.next);
    }
  }

  lemma SettleWrites(s: State, t: nat, k: Key, version: Option<nat>)
    requires Inv(s) && MaySettle(s, t, k, version)
    ensures WritesOk(Settled(s, k, version))
  {
    hide Latest, CellView, TxnsOk, IntentsOk, CellsOk;
    var s' := Settled(s, k, version);
    assert TxnOk(s, t) && IntentOk(s, k) by { TxnAndIntent(s, t, k); }
    if version.Some? && (k, version.value) in s.cells {
      var w := WriterOf(s, k, version.value);
      TxnAndIntent(s, w, k);
    }
    forall t', k' | t' in s'.txns && k' in s'.txns[t'].writes ensures WriteOk(s', t', k') {
      assert WriteOk(s, t', k');
      TxnAndIntent(s, t', k);
    }
  }

  lemma TxnAndIntent(s: State, t: nat, k: Key)
    requires TxnsOk(s) && IntentsOk(s) && t in s.txns && k in s.intents
    ensures TxnOk(s, t) && IntentOk(s, k)
  {
  }

  lemma SettleKeeps(s: State, t: nat, k: Key, version: Option<nat>)
    requires Inv(s) && MaySettle(s, t, k, version)
    ensures Inv(Settled(s, k, version))
  {
    SettleCells(s, t, k, version);
    SettleIntents(s, t, k, version);
    SettleWrites(s, t, k, version);
    var s' := Settled(s, k, version);
    forall t' | t' in s'.txns ensures TxnOk(s', t') { assert TxnOk(s, t'); }
  }

  lemma StepKeepsInv(s: State, step: Step)
    requires Inv(s)
    ensures Inv(Do(s, step))
  {
    hide Inv, Placed, Drawn, Decided, Settled, Started, CellView;
    match step {
      case Begin => BeginKeeps(s);
      case WriteIntent(t, k, eval) =>
        var op := eval(CellView(s.cells, k, s.next));
        if Preparing(s, t) && k !in s.intents && op.Some? { PlaceKeeps(s, t, k, op.value); }
      case DrawVersion(t) => if Preparing(s, t) { DrawKeeps(s, t); }
      case CommitRecord(t) =>
        if t in s.txns && s.txns[t].version.Some? && s.txns[t].record.Running? {
          DecideKeeps(s, t, Committed(s.txns[t].version.value));
        }
      case AbortRecord(t) => if t in s.txns && s.txns[t].record.Running? { DecideKeeps(s, t, Aborted); }
      case CommitIntent(t, k) =>
        if Holds(s, t, k) && s.txns[t].record.Committed? { SettleKeeps(s, t, k, Some(s.txns[t].record.version)); }
      case ClearIntent(t, k) => if Holds(s, t, k) && s.txns[t].record.Aborted? { SettleKeeps(s, t, k, None); }
    }
  }

  lemma {:induction false} RunKeepsInv(s: State, steps: seq<Step>)
    requires Inv(s)
    ensures Inv(Run(s, steps))
  {
    if steps != [] {
      RunKeepsInv(s, steps[..|steps| - 1]);
      StepKeepsInv(Run(s, steps[..|steps| - 1]), steps[|steps| - 1]);
    }
  }

  // ---- Atomic visibility ----

  /** What a key holds at a version: the stored one, or the intent of a committed transaction. */
  function LogicalAt(s: State, k: Key, v: nat): Option<Content> {
    if (k, v) in s.cells then Some(s.cells[(k, v)])
    else if k in s.intents && s.intents[k].start in s.txns && s.txns[s.intents[k].start].record == Committed(v)
    then Written(s.intents[k].op)
    else None
  }

  function View(s: State, k: Key, v: int): Option<Value> {
    Latest((u: nat) => LogicalAt(s, k, u), v)
  }

  /** A version of a key is there exactly when a transaction that wrote the key has committed with
      that version: all writes of a transaction appear together, when its record does, and
      nothing of a transaction that is running or aborted ever does. */
  lemma VisibleIffCommitted(s: State, k: Key, v: nat, c: Content)
    requires Inv(s)
    ensures LogicalAt(s, k, v) == Some(c) <==>
            exists t :: CommittedAt(s, t, v, k) && Written(s.txns[t].writes[k]) == Some(c)
  {
  }

  lemma CommittedIsVisible(s: State, t: nat, v: nat, k: Key)
    requires Inv(s) && CommittedAt(s, t, v, k)
    ensures LogicalAt(s, k, v) == Written(s.txns[t].writes[k])
  {
  }

  /** Keys without a committed writer at a version hold nothing there. */
  lemma LogicalFromCommits(s: State, s': State, k: Key, v: nat)
    requires Inv(s) && Inv(s')
    requires forall t :: CommittedAt(s, t, v, k) <==> CommittedAt(s', t, v, k)
    requires forall t :: CommittedAt(s, t, v, k) && CommittedAt(s', t, v, k) ==>
               s.txns[t].writes[k] == s'.txns[t].writes[k]
    ensures LogicalAt(s, k, v) == LogicalAt(s', k, v)
  {
    hide Inv;
    if LogicalAt(s, k, v).Some? { VisibleIffCommitted(s, k, v, LogicalAt(s, k, v).value); }
    if LogicalAt(s', k, v).Some? { VisibleIffCommitted(s', k, v, LogicalAt(s', k, v).value); }
    if t :| CommittedAt(s, t, v, k) {
      CommittedIsVisible(s, t, v, k);
      CommittedIsVisible(s', t, v, k);
    }
  }

  // ---- What later states keep ----

  /** A later state of one transaction: a drawn version and a decision stay, and what was written
      before a version was drawn stays unless the transaction was aborted. */
  ghost predicate TxnSince(a: Txn, b: Txn, next: nat) {
    && (a.version.Some? ==> b.version == a.version && b.writes == a.writes && b.seen == a.seen)
    && (a.version.None? && b.version.Some? ==> next <= b.version.value)
    && (!a.record.Running? ==> b.record == a.record)
    && (!b.record.Aborted? ==> forall k :: k in a.writes ==> k in b.writes && b.writes[k] == a.writes[k])
  }

  ghost predicate Since(a: State, b: State) {
    && a.next <= b.next
    && (forall t :: t in a.txns ==> t in b.txns && TxnSince(a.txns[t], b.txns[t], a.next))
    && (forall t :: t in b.txns && t !in a.txns ==> a.next <= t)
    && (forall t, k :: Holds(b, t, k) && t in a.txns && a.txns[t].version.Some? ==> Holds(a, t, k))
  }

  lemma SinceOne(s: State, s': State, t: nat)
    requires s.next <= s'.next && t in s.txns && t in s'.txns && s'.txns == s.txns[t := s'.txns[t]]
    requires TxnSince(s.txns[t], s'.txns[t], s.next)
    requires forall k :: k in s'.intents ==>
               (k in s.intents && s.intents[k] == s'.intents[k]) || (s'.intents[k].start == t && s.txns[t].version.None?)
    ensures Since(s, s')
  {
  }

  lemma StepSince(s: State, step: Step)
    requires Inv(s)
    ensures Since(s, Do(s, step))
  {
    hide CellsOk, IntentsOk, Latest, CellView, Since;
    var s' := Do(s, step);
    match step {
      case Begin =>
        NextIsNew(s);
        BeginSince(s);
      case WriteIntent(t, k, eval) =>
        var op := eval(CellView(s.cells, k, s.next));
        if Preparing(s, t) && k !in s.intents && op.Some? { PlaceSince(s, t, k, op.value); } else { SinceSame(s); }
      case CommitIntent(t, k) => SinceTxns(s, s');
      case ClearIntent(t, k) => SinceTxns(s, s');
      case _ => if step.t in s.txns { SinceOne(s, s', step.t); } else { SinceSame(s); }
    }
  }

  lemma PlaceSince(s: State, t: nat, k: Key, op: Op)
    requires TxnsOk(s) && WritesOk(s) && Preparing(s, t) && k !in s.intents
    ensures Since(s, Placed(s, t, k, op))
  {
    hide Latest, CellView;
    if k in s.txns[t].writes { assert WriteOk(s, t, k) && TxnOk(s, t); }
    SinceOne(s, Placed(s, t, k, op), t);
  }

  lemma NextIsNew(s: State)
    requires TxnsOk(s)
    ensures s.next !in s.txns
  {
  }

  lemma BeginSince(s: State)
    ensures Since(s, Started(s)) || s.next in s.txns
  {
  }

  lemma SinceTxns(s: State, s': State)
    requires s.next == s'.next && s.txns == s'.txns
    requires forall k :: k in s'.intents ==> k in s.intents && s.intents[k] == s'.intents[k]
    ensures Since(s, s')
  {
  }

  lemma SinceSame(s: State)
    ensures Since(s, s)
  {
  }

  lemma SinceTransitive(a: State, b: State, c: State)
    requires Since(a, b) && Since(b, c)
    ensures Since(a, c)
  {
    forall t | t in a.txns ensures t in c.txns && TxnSince(a.txns[t], c.txns[t], a.next) {
      assert t in b.txns && TxnSince(a.txns[t], b.txns[t], a.next);
      assert TxnSince(b.txns[t], c.txns[t], b.next);
    }
    forall t, k | Holds(c, t, k) && t in a.txns && a.txns[t].version.Some? ensures Holds(a, t, k) {
      assert TxnSince(a.txns[t], b.txns[t], a.next);
      assert Holds(b, t, k);
    }
  }

  lemma {:induction false} RunSince(s: State, steps: seq<Step>)
    requires Inv(s)
    ensures Since(s, Run(s, steps))
  {
    hide Inv, Do;
    if steps != [] {
      var n := |steps| - 1;
      RunSince(s, steps[..n]);
      RunKeepsInv(s, steps[..n]);
      StepSince(Run(s, steps[..n]), steps[n]);
      SinceTransitive(s, Run(s, steps[..n]), Run(s, steps));
    }
  }

  // ---- Reads at a version ----

  /** No transaction that is still to be decided will commit on the key at or below `r`. */
  ghost predicate Safe(s: State, k: Key, r: int) {
    k in s.intents && s.intents[k].start in s.txns ==>
      var txn := s.txns[s.intents[k].start];
      txn.record.Running? && txn.version.Some? ==> r < txn.version.value
  }

  /** A transaction committed later at an old version had drawn it before, with the same writes;
      it was committed already or still held its intents. */
  lemma OldCommit(a: State, b: State, t: nat, v: nat, k: Key)
    requires Inv(a) && Inv(b) && Since(a, b) && CommittedAt(b, t, v, k) && v < a.next
    ensures t in a.txns && a.txns[t].version == Some(v) && a.txns[t].writes == b.txns[t].writes
    ensures CommittedAt(a, t, v, k) || (a.txns[t].record.Running? && Holding(a, t, k))
  {
  }

  lemma NewerCommit(a: State, b: State, t: nat, v: nat, k: Key)
    requires Inv(a) && Inv(b) && Since(a, b) && CommittedAt(a, t, v, k)
    ensures CommittedAt(b, t, v, k) && a.txns[t].writes == b.txns[t].writes
  {
  }

  /** What was there at an old version stays there, and what was not can only come from the intent
      that held the key. */
  lemma OldVersions(a: State, b: State, k: Key, v: nat)
    requires Inv(a) && Inv(b) && Since(a, b) && v < a.next
    requires !(k in a.intents && CommittedAt(b, a.intents[k].start, v, k) && !CommittedAt(a, a.intents[k].start, v, k))
    ensures LogicalAt(a, k, v) == LogicalAt(b, k, v)
  {
    hide Inv, Since;
    forall t ensures CommittedAt(a, t, v, k) <==> CommittedAt(b, t, v, k) {
      if CommittedAt(a, t, v, k) { NewerCommit(a, b, t, v, k); }
      if CommittedAt(b, t, v, k) { OldCommit(a, b, t, v, k); }
    }
    forall t | CommittedAt(a, t, v, k) && CommittedAt(b, t, v, k) ensures a.txns[t].writes[k] == b.txns[t].writes[k] {
      NewerCommit(a, b, t, v, k);
    }
    LogicalFromCommits(a, b, k, v);
  }

  /** A snapshot does not change: what a key shows at a version that was drawn already stays the
      same in every later state, unless the key holds an intent that will commit below it. */
  lemma SnapshotStable(s: State, steps: seq<Step>, k: Key, r: int)
    requires Inv(s) && r < s.next && Safe(s, k, r)
    ensures View(Run(s, steps), k, r) == View(s, k, r)
    ensures Safe(Run(s, steps), k, r)
  {
    var s' := Run(s, steps);
    RunSince(s, steps);
    RunKeepsInv(s, steps);
    StableBetween(s, s', k, r);
  }

  lemma StableBetween(s: State, s': State, k: Key, r: int)
    requires Inv(s) && Inv(s') && Since(s, s') && r < s.next && Safe(s, k, r)
    ensures View(s', k, r) == View(s, k, r) && Safe(s', k, r)
  {
    hide Inv, Since, Latest;
    forall v: nat | v <= r ensures LogicalAt(s, k, v) == LogicalAt(s', k, v) {
      if k in s.intents && CommittedAt(s', s.intents[k].start, v, k) {
        OldCommit(s, s', s.intents[k].start, v, k);
      }
      OldVersions(s, s', k, v);
    }
    LatestAgrees((u: nat) => LogicalAt(s, k, u), (u: nat) => LogicalAt(s', k, u), r);
    if !Safe(s', k, r) { UnsafeBefore(s, s', k, r); }
  }

  lemma UnsafeBefore(s: State, s': State, k: Key, r: int)
    requires Inv(s) && Inv(s') && Since(s, s') && r < s.next && !Safe(s', k, r)
    ensures !Safe(s, k, r)
  {
    hide CellsOk, Latest, CellView;
    var t := s'.intents[k].start;
    assert IntentOk(s', k) && TxnOk(s', t);
    assert t in s.txns && TxnSince(s.txns[t], s'.txns[t], s.next);
    assert WriteOk(s, t, k);
  }

  /** The step by which a transaction commits. */
  predicate Commits(s: State, step: Step, v: nat, k: Key) {
    && step.CommitRecord? && step.t in s.txns && s.txns[step.t].record.Running?
    && s.txns[step.t].version == Some(v) && k in s.txns[step.t].writes
  }

  /** Writing the record is the one step that shows anything: it shows all writes of its
      transaction at the commit version, and no other step changes what any version shows. */
  lemma StepShows(s: State, step: Step, k: Key, v: nat)
    requires Inv(s)
    ensures LogicalAt(Do(s, step), k, v) ==
            if Commits(s, step, v, k) then Written(s.txns[step.t].writes[k]) else LogicalAt(s, k, v)
  {
    hide Latest, CellView, WritesOk, IntentsOk, CellsOk;
    var s' := Do(s, step);
    StepKeepsInv(s, step);
    if Commits(s, step, v, k) {
      assert CommittedAt(s', step.t, v, k);
      CommittedIsVisible(s', step.t, v, k);
    } else {
      StepCommits(s, step, k, v);
      LogicalFromCommits(s, s', k, v);
    }
  }

  /** The same commits of a key at a version, by transactions with the same writes. */
  ghost predicate SameCommits(s: State, s': State, k: Key, v: nat) {
    forall t ::
      && (CommittedAt(s, t, v, k) <==> CommittedAt(s', t, v, k))
      && (CommittedAt(s, t, v, k) && CommittedAt(s', t, v, k) ==>
            s.txns[t].writes == s'.txns[t].writes && s.txns[t].seen == s'.txns[t].seen)
  }

  /** One transaction changes, which was not committed and is not committed here. */
  lemma OneTxnChanges(s: State, s': State, t: nat, k: Key, v: nat)
    requires t in s'.txns && s'.txns == s.txns[t := s'.txns[t]]
    requires !CommittedAt(s, t, v, k) && !CommittedAt(s', t, v, k)
    ensures SameCommits(s, s', k, v)
  {
  }

  lemma StepCommits(s: State, step: Step, k: Key, v: nat)
    requires Inv(s) && !Commits(s, step, v, k)
    ensures SameCommits(s, Do(s, step), k, v)
  {
    hide Latest, CellView, WritesOk, IntentsOk, CellsOk, SameCommits;
    var s' := Do(s, step);
    if s'.txns == s.txns {
      TxnsUnchanged(s, s', k, v);
    } else {
      NextIsNew(s);
      var t := if step.Begin? then s.next else step.t;
      if t in s.txns { assert TxnOk(s, t); }
      OneTxnChanges(s, s', t, k, v);
    }
  }

  lemma TxnsUnchanged(s: State, s': State, k: Key, v: nat)
    requires s'.txns == s.txns
    ensures SameCommits(s, s', k, v)
  {
  }

  // ---- No lost updates ----

  /** What the writes of committed transactions were evaluated against is what their keys show
      just below the commit version. */
  ghost predicate Chained(s: State) {
    forall t, v: nat, k :: CommittedAt(s, t, v, k) ==>
      k in s.txns[t].seen && s.txns[t].seen[k] == View(s, k, v - 1)
  }

  /** A transaction about to commit was evaluated against what its keys show. */
  lemma SeenIsNewest(s: State, t: nat, v: nat, k: Key)
    requires Inv(s) && t in s.txns && s.txns[t].record.Running? && s.txns[t].version == Some(v) && k in s.txns[t].writes
    ensures k in s.txns[t].seen && s.txns[t].seen[k] == View(s, k, v - 1)
    ensures forall t', v': nat :: CommittedAt(s, t', v', k) ==> v' < v
  {
    hide Latest;
    assert TxnOk(s, t) && WriteOk(s, t, k) && IntentOk(s, k);
    forall u: nat | (k, u) in s.cells ensures u <= v - 1 {
      var w := WriterOf(s, k, u);
    }
    CellViewBound(s.cells, k, v - 1, s.next);
    LatestAgrees((u: nat) => CellAt(s.cells, k, u), (u: nat) => LogicalAt(s, k, u), v - 1);
  }

  lemma StepKeepsChained(s: State, step: Step)
    requires Inv(s) && Chained(s)
    ensures Chained(Do(s, step))
  {
    hide Inv, Latest, Do;
    var s' := Do(s, step);
    StepKeepsInv(s, step);
    forall t, v: nat, k | CommittedAt(s', t, v, k) ensures k in s'.txns[t].seen && s'.txns[t].seen[k] == View(s', k, v - 1) {
      ChainStep(s, step, t, v, k);
    }
  }

  lemma ChainStep(s: State, step: Step, t: nat, v: nat, k: Key)
    requires Inv(s) && Chained(s) && CommittedAt(Do(s, step), t, v, k)
    ensures var s' := Do(s, step); k in s'.txns[t].seen && s'.txns[t].seen[k] == View(s', k, v - 1)
  {
    hide Inv, Latest, CellView;
    var s' := Do(s, step);
    forall u: nat { StepShows(s, step, k, u); }
    if Commits(s, step, v, k) {
      CommitsOnce(s, step, t, v, k);
      SeenIsNewest(s, t, v, k);
    } else {
      StepCommits(s, step, k, v);
      assert CommittedAt(s, t, v, k);
      if step.CommitRecord? && step.t in s.txns && s.txns[step.t].version.Some?
         && Commits(s, step, s.txns[step.t].version.value, k) {
        SeenIsNewest(s, step.t, s.txns[step.t].version.value, k);
      }
    }
    LatestAgrees((u: nat) => LogicalAt(s, k, u), (u: nat) => LogicalAt(s', k, u), v - 1);
  }

  lemma CommitsOnce(s: State, step: Step, t: nat, v: nat, k: Key)
    requires Inv(s) && Commits(s, step, v, k) && CommittedAt(Do(s, step), t, v, k)
    ensures t == step.t && Do(s, step).txns[t].seen == s.txns[t].seen
  {
    hide Latest, CellView, WritesOk, IntentsOk, CellsOk;
    StepKeepsInv(s, step);
    assert TxnOk(Do(s, step), t);
  }

  lemma InitInv()
    ensures Inv(Init()) && Chained(Init())
  {
  }

  /** In every run the committed writes of a key form a chain: each was evaluated against the one
      just below it, so that no conditional write or increment is lost. */
  lemma {:induction false} RunKeepsChained(s: State, steps: seq<Step>)
    requires Inv(s) && Chained(s)
    ensures Chained(Run(s, steps))
  {
    hide Inv, Chained, Do;
    if steps != [] {
      RunKeepsChained(s, steps[..|steps| - 1]);
      RunKeepsInv(s, steps[..|steps| - 1]);
      StepKeepsChained(Run(s, steps[..|steps| - 1]), steps[|steps| - 1]);
    }
  }

  /** What one request does: on a key that is free, with the transaction still preparing, the conditions
      and the put are evaluated on what the key shows, and the intent is placed exactly if they give
      an operation, which is then what the transaction writes. Otherwise nothing changes. */
  lemma WriteIsEvaluated(s: State, t: nat, k: Key, eval: Option<Value> -> Option<Op>)
    requires Inv(s)
    ensures var s' := Do(s, WriteIntent(t, k, eval));
            if k !in s.intents && t in s.txns && s.txns[t].version.None? && eval(View(s, k, s.next)).Some? then
              && k in s'.intents && s'.intents[k] == Intent(t, eval(View(s, k, s.next)).value)
              && t in s'.txns && k in s'.txns[t].writes && k in s'.txns[t].seen
              && s'.txns[t].seen[k] == View(s, k, s.next)
              && eval(s'.txns[t].seen[k]) == Some(s'.txns[t].writes[k])
            else s' == s
  {
    hide Latest;
    if k !in s.intents {
      LatestAgrees((u: nat) => CellAt(s.cells, k, u), (u: nat) => LogicalAt(s, k, u), s.next);
    }
  }

  /** Some request of the run, evaluated on `prev`, gave the operation. */
  ghost predicate Requested(steps: seq<Step>, t: nat, k: Key, prev: Option<Value>, op: Op) {
    exists i :: 0 <= i < |steps| && IsRequest(steps[i], t, k, prev, op)
  }

  predicate IsRequest(step: Step, t: nat, k: Key, prev: Option<Value>, op: Op) {
    step.WriteIntent? && step.t == t && step.key == k && step.eval(prev) == Some(op)
  }

  /** Every write of every transaction is what one of its requests made of the value it saw. */
  ghost predicate AllRequested(s: State, steps: seq<Step>) {
    forall t, k :: t in s.txns && k in s.txns[t].writes ==>
      k in s.txns[t].seen && Requested(steps, t, k, s.txns[t].seen[k], s.txns[t].writes[k])
  }

  lemma RequestedLater(steps: seq<Step>, step: Step, t: nat, k: Key, prev: Option<Value>, op: Op)
    ensures Requested(steps, t, k, prev, op) ==> Requested(steps + [step], t, k, prev, op)
    ensures IsRequest(step, t, k, prev, op) ==> Requested(steps + [step], t, k, prev, op)
  {
    var more := steps + [step];
    if i :| 0 <= i < |steps| && IsRequest(steps[i], t, k, prev, op) { assert IsRequest(more[i], t, k, prev, op); }
    if IsRequest(step, t, k, prev, op) { assert IsRequest(more[|steps|], t, k, prev, op); }
  }

  lemma StepRequested(s: State, steps: seq<Step>, step: Step)
    requires AllRequested(s, steps)
    ensures AllRequested(Do(s, step), steps + [step])
  {
    hide Requested, IsRequest, CellView, Latest;
    var s' := Do(s, step);
    forall t, k | t in s'.txns && k in s'.txns[t].writes
      ensures k in s'.txns[t].seen && Requested(steps + [step], t, k, s'.txns[t].seen[k], s'.txns[t].writes[k])
    {
      if step.WriteIntent? && step.t == t && step.key == k && s' != s {
        IsRequestNow(s, step);
        RequestedLater(steps, step, t, k, s'.txns[t].seen[k], s'.txns[t].writes[k]);
      } else {
        RequestedLater(steps, step, t, k, s.txns[t].seen[k], s.txns[t].writes[k]);
      }
    }
  }

  lemma IsRequestNow(s: State, step: Step)
    requires step.WriteIntent? && Do(s, step) != s
    ensures var txn := Do(s, step).txns[step.t];
            step.key in txn.writes && step.key in txn.seen
            && IsRequest(step, step.t, step.key, txn.seen[step.key], txn.writes[step.key])
  {
    hide CellView, Latest;
  }

  lemma {:induction false} RunRequested(steps: seq<Step>)
    ensures AllRequested(Run(Init(), steps), steps)
  {
    hide Do;
    if steps != [] {
      var n := |steps| - 1;
      RunRequested(steps[..n]);
      StepRequested(Run(Init(), steps[..n]), steps[..n], steps[n]);
      assert steps[..n] + [steps[n]] == steps;
    }
  }

  /** No lost updates: in every run, each committed write is what a request of its transaction made of
      the value that the key shows just below the commit version. */
  lemma NoLostUpdates(steps: seq<Step>, t: nat, v: nat, k: Key)
    requires CommittedAt(Run(Init(), steps), t, v, k)
    ensures var s := Run(Init(), steps); Requested(steps, t, k, View(s, k, v - 1), s.txns[t].writes[k])
  {
    hide Inv, Do, View, Requested;
    InitInv();
    RunRequested(steps);
    RunKeepsChained(Init(), steps);
  }

  /** What an intent waits for can always be brought about without showing anything that is not
      committed: a resolver decides the transaction if it is still running and settles the intent,
      and the key is free. */
  lemma KeyCanBeFreed(s: State, k: Key) returns (steps: seq<Step>)
    requires Inv(s) && k in s.intents
    ensures |steps| <= 2 && k !in Run(s, steps).intents
    ensures forall k', v: nat :: LogicalAt(Run(s, steps), k', v) == LogicalAt(s, k', v)
    ensures forall k' :: k' != k ==> (k' in Run(s, steps).intents <==> k' in s.intents)
  {
    assert IntentOk(s, k);
    hide Inv, Do, Run, IntentOk, LogicalAt;
    var t := s.intents[k].start;
    if s.txns[t].record.Running? {
      steps := [AbortRecord(t), ClearIntent(t, k)];
      FreeBy(s, AbortRecord(t), ClearIntent(t, k), k);
    } else {
      var step := if s.txns[t].record.Committed? then CommitIntent(t, k) else ClearIntent(t, k);
      steps := [step];
      SettleBy(s, step, k);
    }
  }

  lemma SettleBy(s: State, step: Step, k: Key)
    requires Inv(s) && k in s.intents && s.intents[k].start in s.txns && !s.txns[s.intents[k].start].record.Running?
    requires step == if s.txns[s.intents[k].start].record.Committed? then CommitIntent(s.intents[k].start, k)
                     else ClearIntent(s.intents[k].start, k)
    ensures var s' := Run(s, [step]);
            && k !in s'.intents && (forall k', v: nat :: LogicalAt(s', k', v) == LogicalAt(s, k', v))
            && (forall k' :: k' != k ==> (k' in s'.intents <==> k' in s.intents))
  {
    hide Inv, CellView, Latest;
    assert [step][..0] == [] && Run(s, []) == s && Run(s, [step]) == Do(s, step);
    forall k', v: nat ensures LogicalAt(Do(s, step), k', v) == LogicalAt(s, k', v) { StepShows(s, step, k', v); }
  }

  lemma FreeBy(s: State, a: Step, b: Step, k: Key)
    requires Inv(s) && k in s.intents && s.intents[k].start in s.txns && s.txns[s.intents[k].start].record.Running?
    requires a == AbortRecord(s.intents[k].start) && b == ClearIntent(s.intents[k].start, k)
    ensures var s' := Run(s, [a, b]);
            && k !in s'.intents && (forall k', v: nat :: LogicalAt(s', k', v) == LogicalAt(s, k', v))
            && (forall k' :: k' != k ==> (k' in s'.intents <==> k' in s.intents))
  {
    hide Inv, CellView, Latest;
    assert [a, b][..1] == [a] && [a][..0] == [];
    var s1 := Do(s, a);
    assert Run(s, []) == s && Run(s, [a]) == s1 && Run(s, [a, b]) == Do(s1, b);
    StepKeepsInv(s, a);
    forall k', v: nat ensures LogicalAt(Do(s1, b), k', v) == LogicalAt(s, k', v) {
      StepShows(s, a, k', v);
      StepShows(s1, b, k', v);
    }
  }

  // ---- `read_key` ----

  /** What a reader makes of a committed intent: a `Nop` reads like a tombstone. */
  function IntentContent(op: Op): Content {
    match op case Assign(v) => Some(v) case Remove => None case Nop => None
  }

  /** `LatchManager::resolve_txn` for the intent of `t` on `k`: by then the state may have moved on.
      Whoever had to wait, or still finds the intent, goes by the record; otherwise the newest
      stored version is read again. */
  function Resolved(s: State, k: Key, r: nat, intent: Intent, waited: bool): Option<Value> {
    if waited || (k in s.intents && s.intents[k].start == intent.start) then
      if intent.start in s.txns && s.txns[intent.start].record.Committed?
      then Some(Value(IntentContent(intent.op), s.txns[intent.start].record.version))
      else None
    else CellView(s.cells, k, r)
  }

  /** `read_key` at version `r`: the versions are those of `s`, an intent that may be visible is
      resolved in `s'`. */
  function ReadKey(s: State, s': State, k: Key, r: nat, waited: bool): Option<Value> {
    if k in s.intents && s.intents[k].start <= r then
      var value := Resolved(s', k, r, s.intents[k], waited);
      if value.Some? && value.value.version <= r then value else CellView(s.cells, k, r)
    else CellView(s.cells, k, r)
  }

  /** The reader goes by the record of the intent it met. */
  predicate ByRecord(s: State, s': State, k: Key, r: nat, waited: bool) {
    && k in s.intents && s.intents[k].start <= r
    && (waited || (k in s'.intents && s'.intents[k].start == s.intents[k].start))
  }

  /** The transaction whose intent the reader met is decided. */
  predicate Answered(s: State, s': State, k: Key, r: nat, waited: bool) {
    ByRecord(s, s', k, r, waited) && s.intents[k].start in s'.txns ==> !s'.txns[s.intents[k].start].record.Running?
  }

  /** The reader met the intent of a `Nop` that committed at or below its version. */
  predicate MeetsNop(s: State, s': State, k: Key, r: nat, waited: bool) {
    && ByRecord(s, s', k, r, waited) && s.intents[k].op == Nop && s.intents[k].start in s'.txns
    && s'.txns[s.intents[k].start].record.Committed? && s'.txns[s.intents[k].start].record.version <= r
  }

  lemma IntentKnown(s: State, s': State, k: Key)
    requires Inv(s) && Since(s, s')
    ensures k in s.intents ==> s.intents[k].start in s.txns && s.intents[k].start in s'.txns
  {
  }

  /** Where no intent of `a` commits up to `r`, what `a` stores is what `b` shows. */
  lemma CellsShow(a: State, b: State, k: Key, r: int)
    requires Inv(a) && Inv(b) && Since(a, b) && (r < a.next || a == b)
    requires k in a.intents ==> forall v: nat :: v <= r ==> !CommittedAt(b, a.intents[k].start, v, k)
    ensures CellView(a.cells, k, r) == View(b, k, r)
  {
    hide Latest, WritesOk, CellsOk, Since, DistinctVersions;
    forall v: nat | v <= r ensures CellAt(a.cells, k, v) == LogicalAt(b, k, v) {
      if a != b { OldVersions(a, b, k, v); }
      if k in a.intents {
        assert IntentOk(a, k);
        if CommittedAt(a, a.intents[k].start, v, k) { NewerCommit(a, b, a.intents[k].start, v, k); }
      }
    }
    LatestAgrees((u: nat) => CellAt(a.cells, k, u), (u: nat) => LogicalAt(b, k, u), r);
  }

  /** An intent that committed at or below `r` is the newest of what is shown up to `r`. */
  lemma CommittedIntentIsNewest(a: State, b: State, k: Key, r: int, v: nat)
    requires Inv(a) && Inv(b) && Since(a, b) && (r < a.next || a == b) && k in a.intents
    requires a.intents[k].start in b.txns && b.txns[a.intents[k].start].record == Committed(v) && v <= r
    ensures LogicalAt(b, k, v) == Written(a.intents[k].op)
    ensures forall u: nat :: v < u <= r ==> LogicalAt(b, k, u) == None
  {
    hide Latest, CellView, WritesOk, CellsOk;
    var t := a.intents[k].start;
    assert IntentOk(a, k) && TxnOk(a, t) && TxnOk(b, t);
    assert TxnSince(a.txns[t], b.txns[t], a.next);
    assert CommittedAt(b, t, v, k);
    CommittedIsVisible(b, t, v, k);
    forall u: nat | v < u <= r ensures LogicalAt(b, k, u) == None {
      if LogicalAt(b, k, u).Some? {
        VisibleIffCommitted(b, k, u, LogicalAt(b, k, u).value);
        var t' :| CommittedAt(b, t', u, k);
        AboveIntent(a, b, k, t', u);
      }
    }
  }

  lemma AboveIntent(a: State, b: State, k: Key, t': nat, u: nat)
    requires Inv(a) && Inv(b) && Since(a, b) && (u < a.next || a == b) && k in a.intents && CommittedAt(b, t', u, k)
    requires a.intents[k].start in b.txns && b.txns[a.intents[k].start].record.Committed?
    requires b.txns[a.intents[k].start].record.version < a.next || a == b
    ensures u <= b.txns[a.intents[k].start].record.version
  {
    hide Latest, CellView, CellsOk;
    var t := a.intents[k].start;
    assert IntentOk(a, k) && TxnOk(a, t) && TxnOk(b, t);
    assert TxnSince(a.txns[t], b.txns[t], a.next);
    if a != b { OldCommit(a, b, t', u, k); }
  }

  /** A reader that no longer finds the intent it met reads what is shown by then. */
  lemma IntentGone(a: State, b: State, k: Key, r: int)
    requires Inv(a) && Inv(b) && Since(a, b) && r < a.next && k in a.intents
    requires !(k in b.intents && b.intents[k].start == a.intents[k].start)
    ensures CellView(b.cells, k, r) == View(b, k, r)
    ensures View(b, k, r) == None ==> CellView(a.cells, k, r) == None
  {
    hide Latest, CellView, WritesOk, CellsOk, DistinctVersions;
    forall v: nat | v <= r ensures CellAt(b.cells, k, v) == LogicalAt(b, k, v) {
      if k in b.intents {
        var t := b.intents[k].start;
        assert IntentOk(b, k) && Holds(b, t, k);
        if CommittedAt(b, t, v, k) { OldCommit(a, b, t, v, k); }
      }
    }
    CellsAndView(b, k, r);
    if View(b, k, r) == None { NothingBefore(a, b, k, r); }
  }

  lemma CellsAndView(b: State, k: Key, r: int)
    requires forall v: nat :: v <= r ==> CellAt(b.cells, k, v) == LogicalAt(b, k, v)
    ensures CellView(b.cells, k, r) == View(b, k, r)
  {
    LatestAgrees((u: nat) => CellAt(b.cells, k, u), (u: nat) => LogicalAt(b, k, u), r);
  }

  lemma ShownIsViewed(s: State, k: Key, r: int, v: nat)
    requires LogicalAt(s, k, v).Some? && v <= r
    ensures View(s, k, r).Some?
  {
    var shown := (u: nat) => LogicalAt(s, k, u);
    LatestIs(shown, r);
    assert shown(v).Some?;
  }

  lemma NothingBefore(a: State, b: State, k: Key, r: int)
    requires Inv(a) && Inv(b) && Since(a, b) && View(b, k, r) == None
    ensures CellView(a.cells, k, r) == None
  {
    hide Latest, WritesOk, IntentsOk, Since, DistinctVersions, TxnsOk;
    LatestIs((u: nat) => CellAt(a.cells, k, u), r);
    if CellView(a.cells, k, r).Some? {
      var v := CellView(a.cells, k, r).value.version;
      var t := WriterOf(a, k, v);
      NewerCommit(a, b, t, v, k);
      CommittedIsVisible(b, t, v, k);
      ShownIsViewed(b, k, r, v);
    }
  }

  /** A read that has resolved the intent it met is right in every case but one: it meets the
      intent of a committed `Nop`, and takes it for a deletion. */
  lemma ReadIsView(s: State, steps: seq<Step>, k: Key, r: nat, waited: bool)
    requires Inv(s) && (r < s.next || steps == [])
    requires Answered(s, Run(s, steps), k, r, waited)
    ensures ReadKey(s, Run(s, steps), k, r, waited) == View(Run(s, steps), k, r)
            <==> !MeetsNop(s, Run(s, steps), k, r, waited)
  {
    hide Inv, Since, Latest, Do;
    RunSince(s, steps);
    RunKeepsInv(s, steps);
    ReadBetween(s, Run(s, steps), k, r, waited);
  }

  lemma ReadBetween(s: State, s': State, k: Key, r: nat, waited: bool)
    requires Inv(s) && Inv(s') && Since(s, s') && (r < s.next || s == s')
    requires Answered(s, s', k, r, waited)
    ensures ReadKey(s, s', k, r, waited) == View(s', k, r) <==> !MeetsNop(s, s', k, r, waited)
  {
    hide Inv, Since, Latest, CellView;
    IntentKnown(s, s', k);
    if !ByRecord(s, s', k, r, waited) {
      if k in s.intents && s.intents[k].start <= r {
        IntentGone(s, s', k, r);
        ViewBound(s', k, r);
      } else {
        LaterIntent(s', k, r, if k in s.intents then s.intents[k].start else r + 1);
        CellsShow(s, s', k, r);
      }
    } else {
      var record := s'.txns[s.intents[k].start].record;
      if record.Committed? && record.version <= r {
        CommittedIntentIsNewest(s, s', k, r, record.version);
        NewestShown(s', k, r, record.version);
      } else {
        CellsShow(s, s', k, r);
      }
    }
  }

  lemma ViewBound(s: State, k: Key, r: int)
    ensures View(s, k, r).Some? ==> View(s, k, r).value.version <= r
  {
    LatestIs((u: nat) => LogicalAt(s, k, u), r);
  }

  /** A transaction that starts after `r` does not commit up to `r`. */
  lemma LaterIntent(s: State, k: Key, r: int, t: nat)
    requires Inv(s) && r < t
    ensures forall v: nat :: v <= r ==> !CommittedAt(s, t, v, k)
  {
  }

  lemma NewestShown(s: State, k: Key, r: int, v: nat)
    requires v <= r && forall u: nat :: v < u <= r ==> LogicalAt(s, k, u) == None
    ensures LogicalAt(s, k, v).Some? ==> View(s, k, r) == Some(Value(LogicalAt(s, k, v).value, v))
    ensures LogicalAt(s, k, v).None? ==> View(s, k, r).None? || View(s, k, r).value.version != v
  {
    var shown := (u: nat) => LogicalAt(s, k, u);
    LatestIs(shown, r);
    assert shown(v) == LogicalAt(s, k, v);
    if View(s, k, r).Some? { assert shown(View(s, k, r).value.version).Some?; }
  }

  lemma ReadLeavesSafe(s: State, s': State, k: Key, r: nat, waited: bool)
    requires Inv(s) && Inv(s') && Since(s, s') && r < s.next
    requires Answered(s, s', k, r, waited)
    ensures Safe(s', k, r)
  {
  }

  /** Reads at a version that was drawn already are repeatable: whatever happens after the read was
      answered, the key goes on showing the value that was read. */
  lemma ReadRepeats(s: State, steps: seq<Step>, more: seq<Step>, k: Key, r: nat, waited: bool)
    requires Inv(s) && r < s.next
    requires Answered(s, Run(s, steps), k, r, waited)
    requires !MeetsNop(s, Run(s, steps), k, r, waited)
    ensures View(Run(Run(s, steps), more), k, r) == ReadKey(s, Run(s, steps), k, r, waited)
  {
    hide Inv, Since, Latest, Do, View, ReadKey, Safe;
    ReadIsView(s, steps, k, r, waited);
    RunSince(s, steps);
    RunKeepsInv(s, steps);
    ReadLeavesSafe(s, Run(s, steps), k, r, waited);
    NextKept(s, Run(s, steps));
    SnapshotStable(Run(s, steps), more, k, r);
  }

  lemma NextKept(a: State, b: State)
    requires Since(a, b)
    ensures a.next <= b.next
  {
  }

  /** In every run from the empty store: what a key shows at a version is what the transaction
      committed with that version wrote, and each committed write was evaluated against what its
      key shows just below. */
  lemma EveryRun(steps: seq<Step>)
    ensures var s := Run(Init(), steps);
            && Inv(s) && Chained(s)
            && (forall k, v: nat, c :: LogicalAt(s, k, v) == Some(c) <==>
                  exists t :: CommittedAt(s, t, v, k) && Written(s.txns[t].writes[k]) == Some(c))
  {
    hide Inv, Chained;
    InitInv();
    RunKeepsInv(Init(), steps);
    RunKeepsChained(Init(), steps);
    var s := Run(Init(), steps);
    forall k, v: nat, c
      ensures LogicalAt(s, k, v) == Some(c) <==>
              exists t :: CommittedAt(s, t, v, k) && Written(s.txns[t].writes[k]) == Some(c)
    {
      VisibleIffCommitted(s, k, v, c);
    }
  }

  /** A value is written and settled; then a transaction that only checks the key commits, and its
      intent is still there. */
  function NopRun(k: Key, x: ByteString): seq<Step> {
    [Begin, WriteIntent(0, k, (prev: Option<Value>) => Some(Assign(x))), DrawVersion(0), CommitRecord(0), CommitIntent(0, k),
     Begin, WriteIntent(2, k, (prev: Option<Value>) => Some(Nop)), DrawVersion(2), CommitRecord(2)]
  }

  /** The states of the first half of the run. */
  lemma ValueSettled(k: Key, x: ByteString) returns (s: State)
    ensures s == Run(Init(), NopRun(k, x)[..5])
    ensures s.next == 2 && s.intents == map[] && s.cells == map[(k, 1) := Some(x)] && s.txns.Keys == {0}
  {
    hide CellView, Run;
    var steps := NopRun(k, x)[..5];
    s := Init();
    assert steps[..0] == [];
    NoSteps(s);
    s := StepOn(steps, s, 0);
    s := StepOn(steps, s, 1);
    s := StepOn(steps, s, 2);
    assert s.intents == map[k := Intent(0, Assign(x))] && s.txns[0].version == Some(1);
    s := StepOn(steps, s, 3);
    s := StepOn(steps, s, 4);
    assert steps[..5] == steps;
  }

  lemma NoSteps(s: State)
    ensures Run(s, []) == s
  {
  }

  lemma StepOn(steps: seq<Step>, s: State, n: nat) returns (s': State)
    requires n < |steps| && s == Run(Init(), steps[..n])
    ensures s' == Do(s, steps[n]) == Run(Init(), steps[..n + 1])
  {
    assert steps[..n + 1][..n] == steps[..n];
    s' := Do(s, steps[n]);
  }

  lemma NopCommitted(k: Key, x: ByteString) returns (s: State)
    ensures s == Run(Init(), NopRun(k, x))
    ensures s.next == 4 && s.intents == map[k := Intent(2, Nop)] && s.cells == map[(k, 1) := Some(x)]
    ensures 2 in s.txns && s.txns[2].record == Committed(3)
  {
    hide CellView, Run;
    var steps := NopRun(k, x);
    s := ValueSettled(k, x);
    s := StepOn(steps, s, 5);
    s := StepOn(steps, s, 6);
    s := StepOn(steps, s, 7);
    assert s.intents == map[k := Intent(2, Nop)] && s.txns[2].version == Some(3);
    s := StepOn(steps, s, 8);
    assert steps[..9] == steps;
  }

  /** The key shows its value, and a read at the newest version takes it for deleted. */
  lemma NopRunMisread(k: Key, x: ByteString)
    ensures var s := Run(Init(), NopRun(k, x));
            && Inv(s) && MeetsNop(s, s, k, 3, false)
            && View(s, k, 3) == Some(Value(Some(x), 1))
            && ReadKey(s, s, k, 3, false) == Some(Value(None, 3))
  {
    hide Inv, Do, CellView;
    InitInv();
    RunKeepsInv(Init(), NopRun(k, x));
    var s := NopCommitted(k, x);
    var shown := (u: nat) => LogicalAt(s, k, u);
    assert shown(3) == None && shown(2) == None && shown(1) == Some(Some(x));
    assert Latest(shown, 2) == Latest(shown, 1) == Some(Value(Some(x), 1));
  }

  // ---- Reads of several keys ----

  lemma {:induction false} RunConcat(s: State, a: seq<Step>, b: seq<Step>)
    ensures Run(s, a + b) == Run(Run(s, a), b)
    decreases |b|
  {
    if b == [] {
      assert a + b == a;
    } else {
      assert (a + b)[..|a + b| - 1] == a + b[..|b| - 1];
      RunConcat(s, a, b[..|b| - 1]);
    }
  }

  /** A read within a run: it starts after `from` steps and is answered after `to`. */
  datatype Read = Read(key: Key, from: nat, to: nat, waited: bool)

  /** A read at version `r`, drawn before it starts, that is answered, and not by a no-op. */
  ghost predicate ReadOk(s: State, steps: seq<Step>, read: Read, r: nat) {
    && read.from <= read.to <= |steps|
    && var a, b := Run(s, steps[..read.from]), Run(s, steps[..read.to]);
    && r < a.next && Answered(a, b, read.key, r, read.waited) && !MeetsNop(a, b, read.key, r, read.waited)
  }

  function Outcome(s: State, steps: seq<Step>, read: Read, r: nat): Option<Value>
    requires read.from <= read.to <= |steps|
  {
    ReadKey(Run(s, steps[..read.from]), Run(s, steps[..read.to]), read.key, r, read.waited)
  }

  /** Whenever in a run it takes place, a read at a version returns what its key shows at that version in
      the end. So the reads of any number of keys, at different times, see one state. */
  lemma ReadsSeeOneState(s: State, steps: seq<Step>, read: Read, r: nat)
    requires Inv(s) && ReadOk(s, steps, read, r)
    ensures Outcome(s, steps, read, r) == View(Run(s, steps), read.key, r)
  {
    hide Inv, Do, View, ReadKey, Answered, MeetsNop;
    var before, during, after := steps[..read.from], steps[read.from..read.to], steps[read.to..];
    RunKeepsInv(s, before);
    RunConcat(s, before, during);
    RunConcat(s, steps[..read.to], after);
    assert steps[..read.to] == before + during && steps == steps[..read.to] + after;
    ReadRepeats(Run(s, before), during, after, read.key, r, read.waited);
  }

  /** The outcome of a read reflects a transaction that wrote its key: it is that transaction's write or
      a newer one. */
  ghost predicate Reflects(s: State, t: nat, outcome: Option<Value>) {
    t in s.txns && s.txns[t].record.Committed? && outcome.Some? && s.txns[t].record.version <= outcome.value.version
  }

  /** A read at `r` reflects a transaction that wrote its key exactly if that is committed by the end of
      the run, at or below `r`. */
  lemma ReadReflectsIff(s: State, steps: seq<Step>, t: nat, read: Read, r: nat)
    requires Inv(s) && ReadOk(s, steps, read, r)
    requires t in Run(s, steps).txns && read.key in Run(s, steps).txns[t].writes
    requires Run(s, steps).txns[t].writes[read.key] != Nop
    ensures Reflects(Run(s, steps), t, Outcome(s, steps, read, r)) <==>
            Run(s, steps).txns[t].record.Committed? && Run(s, steps).txns[t].record.version <= r
  {
    hide Inv, Do, ReadKey, Answered, MeetsNop;
    var s', k := Run(s, steps), read.key;
    RunKeepsInv(s, steps);
    ReadsSeeOneState(s, steps, read, r);
    var shown := (u: nat) => LogicalAt(s', k, u);
    LatestIs(shown, r);
    var record := s'.txns[t].record;
    if record.Committed? && record.version <= r {
      assert CommittedAt(s', t, record.version, k);
      CommittedIsVisible(s', t, record.version, k);
      assert shown(record.version).Some?;
    }
  }

  /** No fractured reads: of two keys that one transaction wrote, read at one version in different
      states of a run, either both reads reflect the transaction or neither does. */
  lemma ReadsAreAtomic(s: State, steps: seq<Step>, t: nat, one: Read, two: Read, r: nat)
    requires Inv(s) && ReadOk(s, steps, one, r) && ReadOk(s, steps, two, r) && t in Run(s, steps).txns
    requires var writes := Run(s, steps).txns[t].writes;
             one.key in writes && two.key in writes && writes[one.key] != Nop && writes[two.key] != Nop
    ensures Reflects(Run(s, steps), t, Outcome(s, steps, one, r)) <==>
            Reflects(Run(s, steps), t, Outcome(s, steps, two, r))
  {
    hide Inv, Do, Reflects, ReadOk;
    ReadReflectsIff(s, steps, t, one, r);
    ReadReflectsIff(s, steps, t, two, r);
  }
}
