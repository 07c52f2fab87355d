/** Transaction records (client/src/txn.rs): RUNNING, then COMMITTED or ABORTED, each change one
    conditional batch write on the shared table, sent by any number of clients. */
module TxnRecords {
  import opened Bytes
  import opened Options
  import opened RawDb
  import opened TxnKeys

  datatype TxnState = Running | Committed | Aborted

  /** The hash tag of a transaction; nothing depends on which function it is. */
  type Tagger = U64 -> Byte

  // ---------------------------------------------------------------- values

  function StateValue(s: TxnState): ByteString {
    match s
    case Running => [82, 85, 78, 78, 73, 78, 71]             // "RUNNING"
    case Committed => [67, 79, 77, 77, 73, 84, 84, 69, 68]   // "COMMITTED"
    case Aborted => [65, 66, 79, 82, 84, 69, 68]             // "ABORTED"
  }

  function U64Value(v: U64): ByteString { BigEndian(v, 8) }

  datatype Error = Internal | InvalidArgument | NotFound
  datatype Result<+T> = Ok(value: T) | Err(error: Error)

  function ParseTxnState(bytes: ByteString): Result<TxnState> {
    if bytes == StateValue(Running) then Ok(Running)
    else if bytes == StateValue(Committed) then Ok(Committed)
    else if bytes == StateValue(Aborted) then Ok(Aborted)
    else Err(Internal)
  }

  function ParseU64(bytes: ByteString): Result<nat> {
    if |bytes| != 8 then Err(Internal) else Ok(FromBigEndian(bytes))
  }

  lemma StateValuesDistinct(a: TxnState, b: TxnState)
    ensures StateValue(a) == StateValue(b) <==> a == b
    ensures ParseTxnState(StateValue(a)) == Ok(a)
  {
  }

  lemma U64ValueRoundTrip(v: U64)
    ensures ParseU64(U64Value(v)) == Ok(v)
  {
    Pow256Eight();
    BigEndianRoundTrip(v, 8);
  }

  // ---------------------------------------------------------------- the conditional batch

  type Table = map<ByteString, ByteString>

  datatype Condition = ExpectNotExists | ExpectExists | ExpectValue(value: ByteString)
  datatype Put = Put(key: ByteString, condition: Option<Condition>, value: ByteString)

  predicate Satisfied(table: Table, p: Put) {
    match p.condition
    case None => true
    case Some(ExpectNotExists) => p.key !in table
    case Some(ExpectExists) => p.key in table
    case Some(ExpectValue(v)) => p.key in table && table[p.key] == v
  }

  datatype WriteResult =
    | Written(table: Table)
    | CasFailed(index: nat, condIndex: nat, prev: Option<ByteString>)

  function Lookup(table: Table, key: ByteString): Option<ByteString> {
    if key in table then Some(table[key]) else None
  }

  /** All conditions are checked, in order, before anything is written. */
  function BatchWrite(table: Table, puts: seq<Put>): WriteResult {
    var failed := FirstUnsatisfied(table, puts);
    if failed < |puts| then CasFailed(failed, 0, Lookup(table, puts[failed].key)) else Written(PutAll(table, puts))
  }

  function FirstUnsatisfied(table: Table, puts: seq<Put>): (i: nat)
    ensures i <= |puts|
  {
    if puts == [] || !Satisfied(table, puts[0]) then 0 else 1 + FirstUnsatisfied(table, puts[1..])
  }

  function PutAll(table: Table, puts: seq<Put>): Table
    decreases |puts|
  {
    if puts == [] then table else PutAll(table[puts[0].key := puts[0].value], puts[1..])
  }

  // ---------------------------------------------------------------- requests and answers

  /** `now` is the clock in milliseconds when the request was built. */
  datatype Op =
    | Begin(txn: U64, now: U64)
    | Heartbeat(txn: U64, now: U64)
    | Commit(txn: U64, version: U64, now: U64)
    | Abort(txn: U64, now: U64)

  /** Begin writes its heartbeat little-endian, the others big-endian. */
  function PutsOf(tag: Tagger, op: Op): seq<Put> {
    var h, t := tag(op.txn), op.txn;
    match op
    case Begin(_, now) =>
      [Put(StateKey(h, t), Some(ExpectNotExists), StateValue(Running)),
       Put(HeartbeatKey(h, t), None, LittleEndian(now, 8))]
    case Heartbeat(_, now) =>
      [Put(HeartbeatKey(h, t), Some(ExpectExists), U64Value(now))]
    case Commit(_, version, now) =>
      [Put(StateKey(h, t), Some(ExpectValue(StateValue(Running))), StateValue(Committed)),
       Put(CommitKey(h, t), None, U64Value(version)),
       Put(HeartbeatKey(h, t), None, U64Value(now))]
    case Abort(_, now) =>
      [Put(StateKey(h, t), Some(ExpectValue(StateValue(Running))), StateValue(Aborted)),
       Put(HeartbeatKey(h, t), None, U64Value(now))]
  }

  /** What the client concludes from the response to its write. */
  function Answer(op: Op, r: WriteResult): Result<()> {
    match r
    case Written(_) => Ok(())
    case CasFailed(index, condIndex, prev) =>
      if op.Heartbeat? then Ok(())
      else if index != 0 || condIndex != 0 then Err(Internal)
      else if prev.None? then Err(NotFound)
      else
        var s := ParseTxnState(prev.value);
        if s.Err? then Err(Internal)
        else
          match op
          case Begin(_, _) => if s.value == Running then Ok(()) else Err(InvalidArgument)
          case Commit(_, _, _) =>
            if s.value == Running then Err(Internal)
            else if s.value == Committed then Ok(()) else Err(InvalidArgument)
          case Abort(_, _) =>
            if s.value == Running then Err(Internal)
            else if s.value == Aborted then Ok(()) else Err(InvalidArgument)
          case Heartbeat(_, _) => Ok(())
  }

  // ---------------------------------------------------------------- the record in the table

  /** What the table holds for one transaction. */
  datatype Record = Absent | Record(state: TxnState, heartbeat: ByteString, commit: Option<ByteString>)

  ghost predicate RecordIs(table: Table, h: Byte, txn: U64, r: Record) {
    match r
    case Absent => StateKey(h, txn) !in table && HeartbeatKey(h, txn) !in table && CommitKey(h, txn) !in table
    case Record(state, heartbeat, commit) =>
      && Lookup(table, StateKey(h, txn)) == Some(StateValue(state))
      && Lookup(table, HeartbeatKey(h, txn)) == Some(heartbeat) && |heartbeat| == 8
      && Lookup(table, CommitKey(h, txn)) == commit
      && (commit.Some? <==> state == Committed)
      && (commit.Some? ==> |commit.value| == 8)
  }

  ghost predicate HasRecord(table: Table, h: Byte, txn: U64) {
    exists r :: RecordIs(table, h, txn, r)
  }

  /** Every key belongs to some transaction, and every transaction has a well-formed record. */
  ghost predicate TableInv(tag: Tagger, table: Table) {
    && (forall k :: k in table ==> exists t: U64 :: IsKeyOf(tag(t), t, k))
    && (forall t: U64 :: HasRecord(table, tag(t), t))
  }

  lemma RecordUnique(table: Table, h: Byte, txn: U64, a: Record, b: Record)
    requires RecordIs(table, h, txn, a) && RecordIs(table, h, txn, b)
    ensures a == b
  {
  }

  ghost function RecordOf(tag: Tagger, table: Table, txn: U64): (r: Record)
    requires TableInv(tag, table)
    ensures RecordIs(table, tag(txn), txn, r)
  {
    assert HasRecord(table, tag(txn), txn);
    var r :| RecordIs(table, tag(txn), txn, r); r
  }

  /** The record machine: what one request does to the record of its own transaction. */
  function Advance(r: Record, op: Op): Record {
    match op
    case Begin(_, now) => if r.Absent? then Record(Running, LittleEndian(now, 8), None) else r
    case Heartbeat(_, now) => if r.Absent? then r else r.(heartbeat := U64Value(now))
    case Commit(_, version, now) =>
      if r.Record? && r.state == Running then Record(Committed, U64Value(now), Some(U64Value(version))) else r
    case Abort(_, now) =>
      if r.Record? && r.state == Running then Record(Aborted, U64Value(now), None) else r
  }

  /** The answer determined by the record the request met. */
  function Verdict(r: Record, op: Op): Result<()> {
    match op
    case Begin(_, _) => if r.Absent? || r.state == Running then Ok(()) else Err(InvalidArgument)
    case Heartbeat(_, _) => Ok(())
    case Commit(_, _, _) =>
      if r.Absent? then Err(NotFound) else if r.state == Aborted then Err(InvalidArgument) else Ok(())
    case Abort(_, _) =>
      if r.Absent? then Err(NotFound) else if r.state == Committed then Err(InvalidArgument) else Ok(())
  }

  /** The table after one delivery of a request. */
  function Execute(tag: Tagger, table: Table, op: Op): Table {
    var r := BatchWrite(table, PutsOf(tag, op));
    if r.Written? then r.table else table
  }

  function Respond(tag: Tagger, table: Table, op: Op): Result<()> {
    Answer(op, BatchWrite(table, PutsOf(tag, op)))
  }

  lemma UnfoldBatch(table: Table, puts: seq<Put>)
    requires 1 <= |puts| <= 3
    requires forall i :: 1 <= i < |puts| ==> puts[i].condition.None?
    ensures Satisfied(table, puts[0]) ==>
              BatchWrite(table, puts) == Written(
                var t := table[puts[0].key := puts[0].value];
                if |puts| == 1 then t
                else
                  var t2 := t[puts[1].key := puts[1].value];
                  if |puts| == 2 then t2 else t2[puts[2].key := puts[2].value])
    ensures !Satisfied(table, puts[0]) ==> BatchWrite(table, puts) == CasFailed(0, 0, Lookup(table, puts[0].key))
  {
    var t1 := table[puts[0].key := puts[0].value];
    var rest := puts[1..];
    assert PutAll(table, puts) == PutAll(t1, rest);
    if |puts| >= 2 {
      var t2 := t1[puts[1].key := puts[1].value];
      var last := rest[1..];
      assert rest[0] == puts[1] && PutAll(t1, rest) == PutAll(t2, last);
      assert Satisfied(table, rest[0]);
      if |puts| == 3 {
        assert last[0] == puts[2] && last[1..] == [];
        assert PutAll(t2, last) == PutAll(t2[puts[2].key := puts[2].value], []);
        assert FirstUnsatisfied(table, last) == 1;
      }
      assert FirstUnsatisfied(table, rest) == |rest|;
    }
  }

  /** On its own transaction, a request does exactly what the record machine says, and is
      answered accordingly. */
  lemma ExecuteOwn(tag: Tagger, table: Table, op: Op, r: Record)
    requires RecordIs(table, tag(op.txn), op.txn, r)
    ensures RecordIs(Execute(tag, table, op), tag(op.txn), op.txn, Advance(r, op))
    ensures Respond(tag, table, op) == Verdict(r, op)
  {
    hide StateKey, HeartbeatKey, CommitKey;
    var h, t := tag(op.txn), op.txn;
    KeysDistinct(h, t);
    UnfoldBatch(table, PutsOf(tag, op));
    if r.Record? {
      StateValuesDistinct(r.state, Running);
      StateValuesDistinct(r.state, Committed);
    }
  }

  /** A request touches only the three keys of its own transaction. */
  lemma ExecuteFrame(tag: Tagger, table: Table, op: Op, k: ByteString)
    ensures !IsKeyOf(tag(op.txn), op.txn, k) ==> Lookup(Execute(tag, table, op), k) == Lookup(table, k)
    ensures k in Execute(tag, table, op) ==> k in table || IsKeyOf(tag(op.txn), op.txn, k)
  {
    hide StateKey, HeartbeatKey, CommitKey;
    UnfoldBatch(table, PutsOf(tag, op));
  }

  lemma ExecuteOther(tag: Tagger, table: Table, op: Op, txn: U64, r: Record)
    requires txn != op.txn && RecordIs(table, tag(txn), txn, r)
    ensures RecordIs(Execute(tag, table, op), tag(txn), txn, r)
  {
    forall k | IsKeyOf(tag(txn), txn, k) ensures Lookup(Execute(tag, table, op), k) == Lookup(table, k) {
      if IsKeyOf(tag(op.txn), op.txn, k) {
        assert Prefix(tag(txn), txn) <= k;
        KeysSeparate(tag(op.txn), op.txn, tag(txn), txn, k);
      }
      ExecuteFrame(tag, table, op, k);
    }
    hide StateKey, HeartbeatKey, CommitKey;
    assert IsKeyOf(tag(txn), txn, StateKey(tag(txn), txn));
    assert IsKeyOf(tag(txn), txn, HeartbeatKey(tag(txn), txn));
    assert IsKeyOf(tag(txn), txn, CommitKey(tag(txn), txn));
  }

  lemma ExecuteKeepsInv(tag: Tagger, table: Table, op: Op)
    requires TableInv(tag, table)
    ensures TableInv(tag, Execute(tag, table, op))
    ensures forall t: U64 :: RecordOf(tag, Execute(tag, table, op), t)
              == if t == op.txn then Advance(RecordOf(tag, table, t), op) else RecordOf(tag, table, t)
  {
    hide Execute, RecordIs, Advance, IsKeyOf;
    var table' := Execute(tag, table, op);
    forall k | k in table' ensures exists t: U64 :: IsKeyOf(tag(t), t, k) {
      ExecuteFrame(tag, table, op, k);
    }
    forall t: U64 ensures RecordIs(table', tag(t), t, RecordAfter(tag, table, op, t)) {
      RecordExecuted(tag, table, op, t);
    }
    assert TableInv(tag, table');
    forall t: U64 ensures RecordOf(tag, table', t) == RecordAfter(tag, table, op, t) {
      RecordUnique(table', tag(t), t, RecordOf(tag, table', t), RecordAfter(tag, table, op, t));
    }
  }

  ghost function RecordAfter(tag: Tagger, table: Table, op: Op, t: U64): Record
    requires TableInv(tag, table)
  {
    if t == op.txn then Advance(RecordOf(tag, table, t), op) else RecordOf(tag, table, t)
  }

  lemma RecordExecuted(tag: Tagger, table: Table, op: Op, t: U64)
    requires TableInv(tag, table)
    ensures RecordIs(Execute(tag, table, op), tag(t), t, RecordAfter(tag, table, op, t))
  {
    hide Execute, RecordIs, Advance;
    if t == op.txn {
      ExecuteOwn(tag, table, op, RecordOf(tag, table, t));
    } else {
      ExecuteOther(tag, table, op, t, RecordOf(tag, table, t));
    }
  }

  // ---------------------------------------------------------------- runs

  /** One execution of a request on the shard. A write whose response is lost is executed
      unseen, and its retry is another delivery. */
  datatype Delivery = Delivery(op: Op, seen: bool)

  function Run(tag: Tagger, table: Table, ds: seq<Delivery>): Table
    decreases |ds|
  {
    if ds == [] then table else Run(tag, Execute(tag, table, ds[0].op), ds[1..])
  }

  /** The answers clients saw, in order. */
  function Answers(tag: Tagger, table: Table, ds: seq<Delivery>): seq<(Op, Result<()>)>
    decreases |ds|
  {
    if ds == [] then []
    else
      (if ds[0].seen then [(ds[0].op, Respond(tag, table, ds[0].op))] else [])
      + Answers(tag, Execute(tag, table, ds[0].op), ds[1..])
  }

  /** One execution: absent to Running, Running to Committed with a version or to Aborted, or a
      new heartbeat, and nothing else. */
  predicate StepMoves(a: Record, b: Record) {
    || a == b
    || (a.Absent? && b.Record? && b.state == Running && b.commit.None?)
    || (a.Record? && b.Record? && b == a.(heartbeat := b.heartbeat))
    || (a.Record? && b.Record? && a.state == Running && b.state == Committed && b.commit.Some?)
    || (a.Record? && b.Record? && a.state == Running && b.state == Aborted && b.commit.None?)
  }

  lemma ExecuteMoves(tag: Tagger, table: Table, op: Op, txn: U64)
    requires TableInv(tag, table)
    ensures TableInv(tag, Execute(tag, table, op))
    ensures StepMoves(RecordOf(tag, table, txn), RecordOf(tag, Execute(tag, table, op), txn))
  {
    ExecuteKeepsInv(tag, table, op);
  }

  /** Over many executions: a record stays, and a finished one keeps its outcome and version. */
  predicate Moves(a: Record, b: Record) {
    a.Record? ==> b.Record? && (a.state != Running ==> b.state == a.state && b.commit == a.commit)
  }

  /** Over every interleaving the invariant holds, a finished transaction keeps its outcome and
      its commit version, and a transaction that exists never disappears. */
  lemma {:induction false} RunMoves(tag: Tagger, table: Table, ds: seq<Delivery>, txn: U64)
    requires TableInv(tag, table)
    ensures TableInv(tag, Run(tag, table, ds))
    ensures Moves(RecordOf(tag, table, txn), RecordOf(tag, Run(tag, table, ds), txn))
    decreases |ds|
  {
    hide Execute, TableInv;
    if ds != [] {
      ExecuteMoves(tag, table, ds[0].op, txn);
      RunMoves(tag, Execute(tag, table, ds[0].op), ds[1..], txn);
    }
  }

  /** What an answer promises about every later state of the table. */
  ghost predicate Promised(op: Op, a: Result<()>, r: Record) {
    match op
    case Begin(_, _) => (a.Ok? ==> r.Record?) && (a.Err? ==> r.Record? && r.state != Running)
    case Heartbeat(_, _) => a.Ok?
    case Commit(_, _, _) =>
      && (a.Ok? ==> r.Record? && r.state == Committed && r.commit.Some?)
      && (a.Err? ==> a.error == NotFound || (a.error == InvalidArgument && r.Record? && r.state == Aborted))
    case Abort(_, _) =>
      && (a.Ok? ==> r.Record? && r.state == Aborted && r.commit.None?)
      && (a.Err? ==> a.error == NotFound || (a.error == InvalidArgument && r.Record? && r.state == Committed))
  }

  lemma VerdictPromised(table: Table, h: Byte, r: Record, op: Op, later: Record)
    requires RecordIs(table, h, op.txn, r)
    requires Moves(Advance(r, op), later)
    ensures Promised(op, Verdict(r, op), later)
  {
  }

  /** Every answer a client saw stays true to the end of the run. */
  lemma {:induction false} AnswersHold(tag: Tagger, table: Table, ds: seq<Delivery>, i: nat)
    requires TableInv(tag, table) && i < |Answers(tag, table, ds)|
    ensures TableInv(tag, Run(tag, table, ds))
    ensures var (op, a) := Answers(tag, table, ds)[i];
            Promised(op, a, RecordOf(tag, Run(tag, table, ds), op.txn))
    decreases |ds|
  {
    hide Execute, Respond, TableInv, RecordIs, Promised, Verdict, Advance, Moves;
    if ds != [] {
      var op := ds[0].op;
      var table' := Execute(tag, table, op);
      ExecuteKeepsInv(tag, table, op);
      RunMoves(tag, table', ds[1..], op.txn);
      if ds[0].seen && i == 0 {
        var r := RecordOf(tag, table, op.txn);
        ExecuteOwn(tag, table, op, r);
        VerdictPromised(table, tag(op.txn), r, op, RecordOf(tag, Run(tag, table, ds), op.txn));
      } else {
        AnswersHold(tag, table', ds[1..], if ds[0].seen then i - 1 else i);
      }
    }
  }

  /** Commit and abort never both succeed for one transaction. */
  lemma NeverBothSucceed(tag: Tagger, table: Table, ds: seq<Delivery>, i: nat, j: nat)
    requires TableInv(tag, table) && i < |Answers(tag, table, ds)| && j < |Answers(tag, table, ds)|
    requires var (a, b) := (Answers(tag, table, ds)[i], Answers(tag, table, ds)[j]);
             a.0.Commit? && b.0.Abort? && a.0.txn == b.0.txn && a.1.Ok?
    ensures Answers(tag, table, ds)[j].1.Err?
  {
    AnswersHold(tag, table, ds, i);
    AnswersHold(tag, table, ds, j);
  }

  /** The version recorded is that of the first commit executed while Running. */
  ghost predicate CommitsWith(ds: seq<Delivery>, txn: U64, version: U64) {
    forall i :: 0 <= i < |ds| && ds[i].op.Commit? && ds[i].op.txn == txn ==> ds[i].op.version == version
  }

  /** If all commits of a transaction carry one version, a committed record holds that version. */
  lemma {:induction false} SingleCommitter(tag: Tagger, table: Table, ds: seq<Delivery>, txn: U64, version: U64)
    requires TableInv(tag, table) && CommitsWith(ds, txn, version)
    requires var r := RecordOf(tag, table, txn); r.Record? && r.commit.Some? ==> r.commit == Some(U64Value(version))
    ensures TableInv(tag, Run(tag, table, ds))
    ensures var r := RecordOf(tag, Run(tag, table, ds), txn);
            r.Record? && r.commit.Some? ==> r.commit == Some(U64Value(version))
    decreases |ds|
  {
    if ds != [] {
      ExecuteKeepsInv(tag, table, ds[0].op);
      SingleCommitter(tag, Execute(tag, table, ds[0].op), ds[1..], txn, version);
    }
  }

  lemma EmptyTable(tag: Tagger)
    ensures TableInv(tag, map[])
    ensures forall t: U64 :: RecordOf(tag, map[], t) == Absent
  {
    forall t: U64 ensures RecordIs(map[], tag(t), t, Absent) {}
    forall t: U64 ensures RecordOf(tag, map[], t) == Absent {
      RecordUnique(map[], tag(t), t, RecordOf(tag, map[], t), Absent);
    }
  }

  /** An Ok to a commit means that its own version is recorded, then and for ever after, exactly when
      the record was still running when the request was executed, or held that version already. */
  lemma OkCommitIsRecordedIff(tag: Tagger, table: Table, txn: U64, version: U64, now: U64, ds: seq<Delivery>)
    requires TableInv(tag, table) && Respond(tag, table, Commit(txn, version, now)) == Ok(())
    ensures var after := Run(tag, Execute(tag, table, Commit(txn, version, now)), ds);
            var r := RecordOf(tag, table, txn);
            && r.Record? && TableInv(tag, after) && RecordOf(tag, after, txn).Record?
            && (RecordOf(tag, after, txn).commit == Some(U64Value(version)) <==>
                r.state == Running || r.commit == Some(U64Value(version)))
  {
    hide Execute, Respond, TableInv, RecordIs;
    var op := Commit(txn, version, now);
    ExecuteOwn(tag, table, op, RecordOf(tag, table, txn));
    ExecuteKeepsInv(tag, table, op);
    RunMoves(tag, Execute(tag, table, op), ds, txn);
  }

  /** Otherwise a commit can be answered Ok although another version is recorded. */
  lemma TwoCommittersDisagree(tag: Tagger)
    ensures var t2 := Execute(tag, Execute(tag, map[], Begin(5, 0)), Commit(5, 7, 0));
            var t3 := Execute(tag, t2, Commit(5, 9, 0));
            && Respond(tag, t2, Commit(5, 9, 0)) == Ok(())
            && TableInv(tag, t3) && RecordOf(tag, t3, 5) == Record(Committed, U64Value(0), Some(U64Value(7)))
  {
    hide Execute, TableInv, Respond;
    EmptyTable(tag);
    var t1 := Execute(tag, map[], Begin(5, 0));
    ExecuteKeepsInv(tag, map[], Begin(5, 0));
    var t2 := Execute(tag, t1, Commit(5, 7, 0));
    ExecuteKeepsInv(tag, t1, Commit(5, 7, 0));
    ExecuteKeepsInv(tag, t2, Commit(5, 9, 0));
    ExecuteOwn(tag, t2, Commit(5, 9, 0), RecordOf(tag, t2, 5));
  }

  // ---------------------------------------------------------------- reading a record back

  datatype ValueSet = ValueSet(userKey: ByteString, values: seq<Option<ByteString>>)

  datatype TxnRecord = TxnRecord(startVersion: nat, state: TxnState, heartbeat: nat, commitVersion: Option<nat>)

  /** `parse_txn_value`: the first value of the set, which must not be a tombstone. */
  function FirstContent(vs: ValueSet): Result<ByteString> {
    if vs.values == [] || vs.values[0].None? then Err(Internal) else Ok(vs.values[0].value)
  }

  function ParseValueU64(vs: ValueSet): Result<nat> {
    var c := FirstContent(vs);
    if c.Err? then Err(c.error) else ParseU64(c.value)
  }

  function ParseValueState(vs: ValueSet): Result<TxnState> {
    var c := FirstContent(vs);
    if c.Err? then Err(c.error) else ParseTxnState(c.value)
  }

  /** `parse_txn_record`. */
  function ParseTxnRecord(h: Byte, txn: U64, values: seq<ValueSet>): Result<Option<TxnRecord>> {
    if values == [] then Ok(None)
    else if values[0].userKey == CommitKey(h, txn) then
      var c := ParseValueU64(values[0]);
      if c.Err? then Err(c.error) else ParseRest(h, txn, Some(c.value), values[1..])
    else ParseRest(h, txn, None, values)
  }

  function ParseRest(h: Byte, txn: U64, commit: Option<nat>, values: seq<ValueSet>): Result<Option<TxnRecord>> {
    if values == [] || values[0].userKey != HeartbeatKey(h, txn) then Err(Internal)
    else
      var hb := ParseValueU64(values[0]);
      if hb.Err? then Err(hb.error)
      else if |values| < 2 || values[1].userKey != StateKey(h, txn) then Err(Internal)
      else
        var st := ParseValueState(values[1]);
        if st.Err? then Err(st.error)
        else if |values| > 2 then Err(Internal)
        else Ok(Some(TxnRecord(txn, st.value, hb.value, commit)))
  }

  /** `items` is a scan of the keys under `prefix`, in key order. */
  ghost predicate IsScan(table: Table, prefix: ByteString, items: seq<Pair>) {
    && Sorted(items)
    && (forall i :: 0 <= i < |items| ==>
          items[i].key in table && table[items[i].key] == items[i].value && prefix <= items[i].key)
    && (forall k :: k in table && prefix <= k ==> exists i :: 0 <= i < |items| && items[i].key == k)
  }

  function ToValueSets(items: seq<Pair>): (vs: seq<ValueSet>)
    ensures |vs| == |items|
    ensures forall i :: 0 <= i < |items| ==> vs[i] == ValueSet(items[i].key, [Some(items[i].value)])
  {
    seq(|items|, i requires 0 <= i < |items| => ValueSet(items[i].key, [Some(items[i].value)]))
  }

  /** The scan result a record stands for. */
  function ItemsOf(h: Byte, txn: U64, r: Record): seq<Pair> {
    if r.Absent? then []
    else
      (if r.commit.Some? then [Pair(CommitKey(h, txn), r.commit.value)] else [])
      + [Pair(HeartbeatKey(h, txn), r.heartbeat), Pair(StateKey(h, txn), StateValue(r.state))]
  }

  lemma {:induction false} SortedUnique(a: seq<Pair>, b: seq<Pair>)
    requires Sorted(a) && Sorted(b)
    requires forall p :: p in a <==> p in b
    ensures a == b
    decreases |a|
  {
    if a == [] {
      EmptyHasNoMember(b);
    } else {
      assert a[0] in b && b != [];
      var i :| 0 <= i < |b| && b[i] == a[0];
      assert b[0] in a;
      var j :| 0 <= j < |a| && a[j] == b[0];
      if i > 0 {
        assert Less(b[0].key, b[i].key);
        if j > 0 { assert Less(a[0].key, a[j].key); LessAsymmetric(b[0].key, a[0].key); }
        LessIrreflexive(b[0].key);
        assert false;
      }
      forall p ensures p in a[1..] <==> p in b[1..] {
        TailMember(a, p);
        TailMember(b, p);
      }
      assert Sorted(a[1..]) by { TailSorted(a); }
      assert Sorted(b[1..]) by { TailSorted(b); }
      SortedUnique(a[1..], b[1..]);
      assert a == [a[0]] + a[1..] && b == [b[0]] + b[1..];
    }
  }

  lemma EmptyHasNoMember(b: seq<Pair>)
    ensures b == [] || exists p :: p in b
  {
    if b != [] { assert b[0] in b; }
  }

  lemma TailMember(a: seq<Pair>, p: Pair)
    requires Sorted(a) && a != []
    ensures p in a[1..] <==> p in a && p != a[0]
  {
    LessIrreflexive(a[0].key);
    if p in a[1..] {
      var i :| 0 <= i < |a[1..]| && a[1..][i] == p;
      assert a[i + 1] == p && Less(a[0].key, a[i + 1].key);
    }
    if p in a && p != a[0] {
      var i :| 0 <= i < |a| && a[i] == p;
      assert a[1..][i - 1] == p;
    }
  }

  lemma TailSorted(a: seq<Pair>)
    requires Sorted(a) && a != []
    ensures Sorted(a[1..])
  {
  }

  /** A prefix scan returns the keys of that transaction, and of no other, in a fixed order. */
  lemma ScanReturnsRecord(tag: Tagger, table: Table, txn: U64, items: seq<Pair>)
    requires TableInv(tag, table)
    requires IsScan(table, Prefix(tag(txn), txn), items)
    ensures items == ItemsOf(tag(txn), txn, RecordOf(tag, table, txn))
  {
    hide TableInv, RecordIs, ItemsOf, Prefix;
    var want := ItemsOf(tag(txn), txn, RecordOf(tag, table, txn));
    WantSorted(tag(txn), txn, RecordOf(tag, table, txn));
    forall p ensures p in items <==> p in want { ScanMember(tag, table, txn, items, p); }
    SortedUnique(items, want);
  }

  lemma ScanMember(tag: Tagger, table: Table, txn: U64, items: seq<Pair>, p: Pair)
    requires TableInv(tag, table)
    requires IsScan(table, Prefix(tag(txn), txn), items)
    ensures p in items <==> p in ItemsOf(tag(txn), txn, RecordOf(tag, table, txn))
  {
    hide RecordIs, ItemsOf, Prefix, IsKeyOf;
    var h, r := tag(txn), RecordOf(tag, table, txn);
    if p in items {
      var i :| 0 <= i < |items| && items[i] == p;
      var t: U64 :| IsKeyOf(tag(t), t, p.key);
      KeysSeparate(tag(t), t, h, txn, p.key);
      RecordKeyListed(table, h, txn, r, p.key);
    }
    if p in ItemsOf(h, txn, r) {
      WantedKey(table, h, txn, r, p);
      var i :| 0 <= i < |items| && items[i].key == p.key;
      assert items[i] == p;
    }
  }

  lemma WantSorted(h: Byte, txn: U64, r: Record)
    ensures Sorted(ItemsOf(h, txn, r))
  {
    KeyOrder(h, txn);
  }

  lemma RecordKeyListed(table: Table, h: Byte, txn: U64, r: Record, key: ByteString)
    requires RecordIs(table, h, txn, r) && IsKeyOf(h, txn, key) && key in table
    ensures Pair(key, table[key]) in ItemsOf(h, txn, r)
  {
  }

  lemma WantedKey(table: Table, h: Byte, txn: U64, r: Record, p: Pair)
    requires RecordIs(table, h, txn, r) && p in ItemsOf(h, txn, r)
    ensures p.key in table && table[p.key] == p.value && Prefix(h, txn) <= p.key
  {
  }

  /** `get_txn_record` reads back exactly the record: its state, its commit version, and the
      big-endian reading of its heartbeat bytes. */
  lemma GetTxnRecord(tag: Tagger, table: Table, txn: U64, items: seq<Pair>)
    requires TableInv(tag, table)
    requires IsScan(table, Prefix(tag(txn), txn), items)
    ensures var r := RecordOf(tag, table, txn);
            ParseTxnRecord(tag(txn), txn, ToValueSets(items))
            == Ok(if r.Absent? then None
                  else Some(TxnRecord(txn, r.state, FromBigEndian(r.heartbeat),
                                      if r.commit.Some? then Some(FromBigEndian(r.commit.value)) else None)))
  {
    var h, r := tag(txn), RecordOf(tag, table, txn);
    ScanReturnsRecord(tag, table, txn, items);
    ParsesItems(h, txn, r);
  }

  lemma ParsesItems(h: Byte, txn: U64, r: Record)
    requires r.Record? ==> |r.heartbeat| == 8 && (r.commit.Some? ==> |r.commit.value| == 8)
    ensures ParseTxnRecord(h, txn, ToValueSets(ItemsOf(h, txn, r)))
            == Ok(if r.Absent? then None
                  else Some(TxnRecord(txn, r.state, FromBigEndian(r.heartbeat),
                                      if r.commit.Some? then Some(FromBigEndian(r.commit.value)) else None)))
  {
  }

  /** The newest value under `key` is `content`. */
  predicate Holds(vs: ValueSet, key: ByteString, content: ByteString) {
    vs.userKey == key && vs.values != [] && vs.values[0] == Some(content)
  }

  /** The values are those of the record, and nothing else. */
  predicate IsWritten(h: Byte, txn: U64, rec: TxnRecord, values: seq<ValueSet>) {
    && rec.startVersion == txn && rec.heartbeat < TWO_64
    && (rec.commitVersion.Some? ==> rec.commitVersion.value < TWO_64)
    && var commit := if rec.commitVersion.Some? then Some(U64Value(rec.commitVersion.value)) else None;
       var items := ItemsOf(h, txn, Record(rec.state, U64Value(rec.heartbeat), commit));
       |values| == |items| && forall i :: 0 <= i < |items| ==> Holds(values[i], items[i].key, items[i].value)
  }

  /** Values are accepted exactly if they are none or those of a record: missing, foreign, extra or
      deleted keys, numbers of another width and unknown states are rejected. */
  lemma ParsesIff(h: Byte, txn: U64, values: seq<ValueSet>)
    ensures ParseTxnRecord(h, txn, values) == Ok(None) <==> values == []
    ensures forall rec :: ParseTxnRecord(h, txn, values) == Ok(Some(rec)) <==> IsWritten(h, txn, rec, values)
  {
    forall rec ensures ParseTxnRecord(h, txn, values) == Ok(Some(rec)) <==> IsWritten(h, txn, rec, values) {
      if ParseTxnRecord(h, txn, values) == Ok(Some(rec)) { ParsedIsWritten(h, txn, rec, values); }
      if IsWritten(h, txn, rec, values) { WrittenIsParsed(h, txn, rec, values); }
    }
  }

  lemma ParsedIsWritten(h: Byte, txn: U64, rec: TxnRecord, values: seq<ValueSet>)
    requires ParseTxnRecord(h, txn, values) == Ok(Some(rec))
    ensures IsWritten(h, txn, rec, values)
  {
    hide BigEndian, FromBigEndian, StateValue, CommitKey, HeartbeatKey, StateKey;
    var n := |values|;
    FromBigEndianRoundTrip(values[n - 2].values[0].value);
    if n == 3 { FromBigEndianRoundTrip(values[0].values[0].value); }
  }

  lemma WrittenIsParsed(h: Byte, txn: U64, rec: TxnRecord, values: seq<ValueSet>)
    requires IsWritten(h, txn, rec, values)
    ensures ParseTxnRecord(h, txn, values) == Ok(Some(rec))
  {
    U64ValueRoundTrip(rec.heartbeat);
    StateValuesDistinct(rec.state, rec.state);
    if rec.commitVersion.Some? { U64ValueRoundTrip(rec.commitVersion.value); }
    KeyOrder(h, txn);
  }

  /** Every request is read back: a heartbeat, a commit and an abort leave their own time, a commit its
      version, an abort none; a begin leaves a running transaction. A request that is refused or
      repeated leaves what was there. */
  lemma RequestReadsBack(tag: Tagger, table: Table, op: Op, items: seq<Pair>)
    requires TableInv(tag, table) && IsScan(Execute(tag, table, op), Prefix(tag(op.txn), op.txn), items)
    ensures var before := RecordOf(tag, table, op.txn);
            var found := ParseTxnRecord(tag(op.txn), op.txn, ToValueSets(items));
            && found.Ok?
            && (found.value.Some? ==> found.value.value.startVersion == op.txn)
            && match op
               case Begin(_, now) =>
                 if before.Absent? then
                   && found.value.Some? && found.value.value.state == Running
                   && found.value.value.commitVersion.None?
                 else Reads(found.value, before)
               case Heartbeat(_, now) =>
                 if before.Absent? then found.value.None?
                 else Reads(found.value, before.(heartbeat := U64Value(now))) && found.value.value.heartbeat == now
               case Commit(t, version, now) =>
                 if before.Record? && before.state == Running
                 then found.value == Some(TxnRecord(t, Committed, now, Some(version)))
                 else Reads(found.value, before)
               case Abort(t, now) =>
                 if before.Record? && before.state == Running
                 then found.value == Some(TxnRecord(t, Aborted, now, None))
                 else Reads(found.value, before)
  {
    hide Execute, TableInv, RecordIs, ParseTxnRecord, IsScan;
    ExecuteKeepsInv(tag, table, op);
    GetTxnRecord(tag, Execute(tag, table, op), op.txn, items);
    U64Back(op.now);
    if op.Commit? { U64Back(op.version); }
  }

  /** What was found says what the record says. */
  ghost predicate Reads(found: Option<TxnRecord>, r: Record) {
    if r.Absent? then found.None?
    else
      && found.Some? && found.value.state == r.state && found.value.heartbeat == FromBigEndian(r.heartbeat)
      && found.value.commitVersion == (if r.commit.Some? then Some(FromBigEndian(r.commit.value)) else None)
  }

  lemma U64Back(v: U64)
    ensures FromBigEndian(U64Value(v)) == v
  {
    U64ValueRoundTrip(v);
  }

  /** What an answer says about the record the request leaves behind, both ways. */
  lemma AnswerMeans(tag: Tagger, table: Table, op: Op)
    requires TableInv(tag, table)
    ensures TableInv(tag, Execute(tag, table, op))
    ensures var before, after := RecordOf(tag, table, op.txn), RecordOf(tag, Execute(tag, table, op), op.txn);
            var answer := Respond(tag, table, op);
            match op
            case Begin(_, _) => after.Record? && (answer.Ok? <==> after.state == Running)
            case Heartbeat(_, _) => answer.Ok?
            case Commit(_, _, _) =>
              && (answer.Ok? <==> after.Record? && after.state == Committed)
              && (before.Absent? <==> answer == Err(NotFound))
              && (before.Record? && before.state == Aborted <==> answer == Err(InvalidArgument))
            case Abort(_, _) =>
              && (answer.Ok? <==> after.Record? && after.state == Aborted)
              && (before.Absent? <==> answer == Err(NotFound))
              && (before.Record? && before.state == Committed <==> answer == Err(InvalidArgument))
  {
    hide Execute, Respond, TableInv;
    ExecuteOwn(tag, table, op, RecordOf(tag, table, op.txn));
    ExecuteKeepsInv(tag, table, op);
  }

  /** The heartbeat written by begin is read back as itself only when its eight bytes read the
      same in both directions. */
  lemma BeginHeartbeat(now: U64)
    ensures FromBigEndian(LittleEndian(now, 8)) == now <==> LittleEndian(now, 8) == BigEndian(now, 8)
  {
    Pow256Eight();
    BigEndianRoundTrip(now, 8);
    FromBigEndianInverse(LittleEndian(now, 8));
  }

  lemma {:induction false} FromBigEndianInverse(s: ByteString)
    ensures BigEndian(FromBigEndian(s), |s|) == s
    decreases |s|
  {
    if s != [] {
      var init := s[..|s| - 1];
      FromBigEndianInverse(init);
      var v := FromBigEndian(s);
      assert v / 256 == FromBigEndian(init) && v % 256 == s[|s| - 1];
      assert s == init + [s[|s| - 1]];
    }
  }

  lemma BeginHeartbeatMisread()
    ensures FromBigEndian(LittleEndian(1, 8)) != 1
  {
  }
}
