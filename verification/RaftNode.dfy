/** A replica around its Raft storage (raftgroup/node.rs, raftgroup/worker.rs and the opening of
    raftgroup/storage.rs): applying and persisting what Raft hands out, compacting the log,
    installing snapshots and restarting. */
module RaftNode {
  import opened EntryIds
  import opened Options
  import opened RaftLog
  import opened RaftEngine
  import opened RaftStorage

  /** Opening panics on undecodable state and on a gap in the entries. */
  datatype OpenResult = Opened(storage: Storage) | BadState | MissingEntries

  predicate SlotsReadable(s: State) {
    && s.hardSlot.Some? && s.hardSlot.value.HardMessage?
    && s.localSlot.Some? && s.localSlot.value.LocalMessage?
  }

  /** The log an engine holds, given a readable local state. */
  function StoredLog(s: State): Log
    requires SlotsReadable(s)
  {
    var t := s.localSlot.value.lastTruncated;
    Log(if t.Some? then t.value else EntryId(0, 0), s.entries)
  }

  /** The stored entries do not start right after the truncation point. */
  predicate Detached(s: State)
    requires SlotsReadable(s)
  {
    var t := s.localSlot.value.lastTruncated;
    t.Some? && s.entries != [] && s.entries[0].index != t.value.index + 1
  }

  /** Entries that are not applied yet are not stored. */
  predicate Behind(s: State, applied: nat)
    requires SlotsReadable(s)
  {
    if s.entries != [] then applied < s.entries[|s.entries| - 1].index && applied + 1 < s.entries[0].index
    else s.localSlot.value.lastTruncated.Some? && applied < s.localSlot.value.lastTruncated.value.index
  }

  /** `Storage::open`: it fails exactly on unreadable state, on entries detached from the truncation
      point and on entries missing between what is applied and what is stored; otherwise it caches
      exactly the entries not applied yet, and a log that was whole is the log it was. */
  method Open(engine: Engine, applied: nat) returns (r: OpenResult)
    requires engine.state.Wf()
    ensures r == BadState <==> !SlotsReadable(engine.state)
    ensures r == MissingEntries <==>
              SlotsReadable(engine.state) && (Detached(engine.state) || Behind(engine.state, applied))
    ensures r.Opened? ==>
              && fresh(r.storage) && fresh(r.storage.cache) && r.storage.engine == engine
              && r.storage.lastTruncated == engine.state.localSlot.value.lastTruncated
              && r.storage.hardState == engine.state.hardSlot.value.hs
    ensures r.Opened? && StoredLog(engine.state).Wf() ==>
              var log := StoredLog(engine.state);
              && r.storage.Valid() && r.storage.ViewLog() == log && r.storage.lastIndex == log.Last()
              && (applied < log.Last() ==> log.truncated.index <= applied)
              && r.storage.cache.entries
                 == (if applied < log.Last() then log.Slice(applied + 1, log.Last() + 1) else [])
              && (r.storage.cache.entries != [] ==> r.storage.cache.entries[0].index == applied + 1)
  {
    if !SlotsReadable(engine.state) {
      return BadState;
    }
    var hardState := engine.state.hardSlot.value.hs;
    var truncated := engine.state.localSlot.value.lastTruncated;
    var range := EntryRange(engine.state.entries, truncated);
    ghost var log := StoredLog(engine.state);
    if log.Wf() { RangeOfLog(log, truncated); TailAgrees(log, applied); }
    RangeMeans(engine.state, applied);
    hide CacheAgrees, Contiguous, EntryRange, State.Wf, Detached, Behind;
    if range.None? {
      return MissingEntries;
    }
    var (first, last) := range.value;
    var es: seq<Entry> := [];
    if applied < last {
      if first > applied + 1 {
        return MissingEntries;
      }
      EntriesAddressable(engine.state, truncated);
      es := engine.FetchEntriesTo(applied + 1, last + 1, None);
      assert log.Wf() ==> es == log.Slice(applied + 1, log.Last() + 1);
    }
    assert log.Wf() ==> CacheAgrees(es, log);
    var cache := new EntryCache(es);
    var storage := new Storage(engine, first, last, cache, truncated, hardState);
    r := Opened(storage);
  }

  /** First and last index; None when the truncation point does not meet the first entry. */
  function EntryRange(es: seq<Entry>, truncated: Option<EntryId>): Option<(nat, nat)> {
    var first := if es == [] then 1 else es[0].index;
    var last := if es == [] then 0 else es[|es| - 1].index;
    if truncated.None? then Some((first, last))
    else if first > last then Some((truncated.value.index + 1, truncated.value.index))  // nothing stored
    else if truncated.value.index + 1 != first then None
    else Some((first, last))
  }

  /** The two panics of `open`. */
  lemma RangeMeans(s: State, applied: nat)
    requires SlotsReadable(s) && s.Wf()
    ensures var range := EntryRange(s.entries, s.localSlot.value.lastTruncated);
            && (range.None? <==> Detached(s))
            && (range.Some? ==>
                  (applied < range.value.1 && applied + 1 < range.value.0 <==> Behind(s, applied)))
  {
  }

  /** A whole log that was truncated at or before what is applied opens. */
  lemma WholeLogOpens(s: State, applied: nat)
    requires SlotsReadable(s) && StoredLog(s).Wf() && StoredLog(s).truncated.index <= applied
    ensures !Detached(s) && !Behind(s, applied)
  {
  }

  lemma RangeOfLog(log: Log, truncated: Option<EntryId>)
    requires log.Wf() && log.truncated == if truncated.Some? then truncated.value else EntryId(0, 0)
    ensures EntryRange(log.entries, truncated) == Some((log.First(), log.Last()))
  {
  }

  lemma EntriesAddressable(s: State, truncated: Option<EntryId>)
    requires s.Wf() && EntryRange(s.entries, truncated).Some?
    ensures var (first, last) := EntryRange(s.entries, truncated).value;
            first <= last ==>
              s.entries != [] && Contiguous(s.entries, s.entries[0].index) && s.entries[0].index == first
              && last + 1 == first + |s.entries|
  {
  }

  /** The entries not applied yet form a cache that agrees with the log. */
  lemma TailAgrees(log: Log, applied: nat)
    requires log.Wf()
    ensures CacheAgrees([], log)
    ensures log.truncated.index <= applied < log.Last() ==>
              var c := log.Slice(applied + 1, log.Last() + 1);
              CacheAgrees(c, log) && c[0].index == applied + 1
  {
  }

  /** The log of a new replica: one committed entry of term 1 per initial payload. */
  ghost predicate IsInitial(es: seq<Entry>, payloads: seq<(nat, nat)>) {
    && |es| == |payloads|
    && forall i :: 0 <= i < |es| ==> es[i] == Entry(i + 1, 1, payloads[i].0, payloads[i].1)
  }

  /** `write_initial_state`, without the testing knob: whatever the engine held is replaced by
      the initial entries. `payloads` are the data and encoded lengths of the initial entries. */
  method WriteInitialState(engine: Engine, replicaId: nat, payloads: seq<(nat, nat)>)
    requires engine.state.Wf()
    modifies engine
    ensures SlotsReadable(engine.state) && engine.state.Wf() && IsInitial(engine.state.entries, payloads)
    ensures engine.state.localSlot == Some(LocalMessage(Some(EntryId(0, 0))))
    ensures engine.state.hardSlot.value.hs
            == if payloads == [] then HardState(0, 0, 0) else HardState(1, replicaId, |payloads|)
  {
    var es: seq<Entry> := [];
    var lastIndex := 0;
    for i := 0 to |payloads|
      invariant lastIndex == |es| == i
      invariant forall k :: 0 <= k < i ==> es[k] == Entry(k + 1, 1, payloads[k].0, payloads[k].1)
    {
      lastIndex := lastIndex + 1;
      es := es + [Entry(lastIndex, 1, payloads[i].0, payloads[i].1)];
    }
    var hs := if es == [] then HardState(0, 0, 0) else HardState(1, replicaId, lastIndex);
    hide State.DoAll, State.AcceptsAll;
    ghost var s := engine.state;
    EmptyBatch(s);
    var batch: seq<Command> := [];
    AddCommand(s, batch, Clean);
    batch := batch + [Clean];
    AddCommand(s, batch, AddEntries(es));
    batch := batch + [AddEntries(es)];
    AddCommand(s, batch, Put(HardStateKey, HardMessage(hs)));
    batch := batch + [Put(HardStateKey, HardMessage(hs))];
    AddCommand(s, batch, Put(LocalStateKey, LocalMessage(Some(EntryId(0, 0)))));
    batch := batch + [Put(LocalStateKey, LocalMessage(Some(EntryId(0, 0))))];
    engine.Write(batch);
  }

  /** The initial entries are a whole log with nothing missing. */
  lemma InitialIsWhole(s: State, payloads: seq<(nat, nat)>)
    requires SlotsReadable(s) && s.Wf() && IsInitial(s.entries, payloads)
    requires s.localSlot == Some(LocalMessage(Some(EntryId(0, 0))))
    ensures StoredLog(s).Wf() && StoredLog(s).Last() == |payloads|
    ensures NewReplica(payloads) == Replica(StoredLog(s), 0, 0, |payloads|, |payloads|, false)
  {
  }

  /** A new replica starts with its initial entries committed and none applied. */
  method Bootstrap(engine: Engine, replicaId: nat, payloads: seq<(nat, nat)>) returns (node: Node)
    requires engine.state.Wf()
    modifies engine
    ensures fresh(node.Repr() - {engine}) && node.engine == engine && node.Valid()
    ensures node.View() == NewReplica(payloads)
  {
    WriteInitialState(engine, replicaId, payloads);
    InitialIsWhole(engine.state, payloads);
    WholeLogOpens(engine.state, 0);
    hide CacheAgrees, Contiguous, IsInitial, Detached, Behind, NewReplica;
    hide State.DoAll, State.AcceptsAll, Storage.Holds, Node.UnappliedCached;
    var outcome := Open(engine, 0);
    node := new Node(engine, outcome.storage, 0);
  }

  class Node {
    const engine: Engine
    var storage: Storage
    var applied: nat        // the applier's last applied index
    var flushed: nat        // what the state machine has made durable

    ghost function Repr(): set<object>
      reads this, storage
    {
      {this, engine, storage, storage.cache}
    }

    ghost predicate Valid()
      reads this, engine, storage, storage.cache
    {
      && storage.engine == engine && storage.Valid()
      && engine.state.hardSlot.Some? && engine.state.hardSlot.value.HardMessage?
      && engine.state.localSlot.Some? && storage.lastTruncated.Some?
      && (engine.state.localSlot.value.LocalMessage? ==>
            engine.state.localSlot.value == LocalMessage(storage.lastTruncated))
      && View().Inv()
      && UnappliedCached()
    }

    ghost function View(): Replica
      requires engine.state.hardSlot.Some? && engine.state.hardSlot.value.HardMessage?
      requires engine.state.localSlot.Some?
      reads this, engine, storage
    {
      Replica(Log(storage.Truncated(), engine.state.entries), applied, flushed, storage.hardState.commit,
              engine.state.hardSlot.value.hs.commit, engine.state.localSlot.value.HardMessage?)
    }

    /** Every entry that is not applied can be read from the cache. */
    ghost predicate UnappliedCached()
      reads this, storage, storage.cache
    {
      && (applied < storage.lastIndex ==> storage.cache.entries != [])
      && (storage.cache.entries != [] ==> storage.cache.entries[0].index <= applied + 1)
    }

    /** A freshly opened node. */
    constructor (engine: Engine, storage: Storage, applied: nat)
      requires storage.engine == engine && storage.Valid() && SlotsReadable(engine.state)
      requires storage.lastTruncated.Some? && engine.state.localSlot.value == LocalMessage(storage.lastTruncated)
      requires storage.Truncated().index <= applied <= storage.lastIndex
      requires storage.cache.entries == if applied < storage.lastIndex
                                        then storage.ViewLog().Slice(applied + 1, storage.lastIndex + 1) else []
      ensures Valid()
      ensures this.engine == engine && this.storage == storage && this.applied == this.flushed == applied
    {
      this.engine, this.storage, this.applied, this.flushed := engine, storage, applied, applied;
    }

    /** One round of `advance` and `dispatch`: apply up to `applyTo`, let the cache go of half
        of it, then persist the hard state and the new entries. */
    method HandleReady(applyTo: nat, hs: Option<HardState>, es: seq<Entry>)
      requires Valid() && Enabled(View(), Ready(applyTo, hs, es))
      modifies this, engine, storage, storage.cache
      ensures storage == old(storage) && fresh(Repr() - old(Repr()))
      ensures Valid() && View() == old(Step(View(), Ready(applyTo, hs, es)))
    {
      hide CacheAgrees, Contiguous;
      ghost var log := storage.ViewLog();
      StepKeepsInv(View(), Ready(applyTo, hs, es));
      if applied < applyTo {
        applied := applyTo;
        PostApply();
      }
      if hs.Some? || es != [] {
        CacheGrows(storage.cache.entries, es, log, applied);
        ghost var st := engine.state;
        var batch, after := storage.Write(WriteTask(hs, es, None));
        engine.Write(batch);
        assert engine.state == after;
      }
    }

    lemma CacheGrows(cached: seq<Entry>, es: seq<Entry>, log: Log, applied: nat)
      requires CacheAgrees(cached, log) && applied <= log.Last()
      requires cached != [] ==> cached[0].index <= applied + 1
      requires applied < log.Last() ==> cached != []
      requires es != [] ==> applied < es[0].index <= log.Last() + 1
      ensures cached != [] && es != [] ==> es[0].index <= cached[0].index + |cached|
      ensures var c := CacheAppend(cached, es);
              && (c != [] ==> c[0].index <= applied + 1)
              && (es != [] || applied < log.Last() ==> c != [])
    {
    }

    /** `Storage::post_apply`; the subtraction in `drains_to` cannot underflow. */
    method PostApply()
      requires storage.Valid()
      requires storage.cache.entries != [] ==> storage.cache.entries[0].index <= applied <= storage.lastIndex
      modifies storage.cache
      ensures storage.Valid()
      ensures storage.cache.entries != [] <==> old(storage.cache.entries) != []
      ensures storage.cache.entries != [] ==> storage.cache.entries[0].index <= applied
    {
      storage.cache.DrainsTo(applied);
    }

    /** Installing a snapshot: the state machine takes it over, then the log is reset; the hard state
        of the same ready keeps its term and vote. */
    method Install(id: EntryId, hs: Option<HardState>)
      requires Valid() && Enabled(View(), InstallSnapshot(id, hs))
      modifies this, engine, storage, storage.cache
      ensures storage == old(storage) && fresh(Repr() - old(Repr()))
      ensures Valid() && View() == old(Step(View(), InstallSnapshot(id, hs)))
      ensures storage.hardState == (if hs.Some? then hs.value else old(storage.hardState)).(commit := id.index)
    {
      applied, flushed := id.index, id.index;
      ResetTo(id, hs);
    }

    method ResetTo(id: EntryId, hs: Option<HardState>)
      requires storage.engine == engine && storage.Valid()
      modifies engine, storage, storage.cache
      ensures fresh(storage.cache) && storage.cache.entries == []
      ensures storage.Valid() && storage.ViewLog() == Log(id, [])
      ensures storage.lastTruncated == Some(id)
      ensures storage.hardState == (if hs.Some? then hs.value else old(storage.hardState)).(commit := id.index)
      ensures engine.state.hardSlot == Some(HardMessage(storage.hardState))
      ensures engine.state.localSlot == Some(LocalMessage(Some(id)))
    {
      hide CacheAgrees, Contiguous;
      var batch, after := storage.Write(WriteTask(hs, [], Some(id)));
      engine.Write(batch);
      assert engine.state == after;
    }

    method FlushTo(index: nat)
      requires Valid() && Enabled(View(), Flush(index))
      modifies this`flushed
      ensures Valid() && View() == old(Step(View(), Flush(index)))
    {
      flushed := index;
    }

    /** `RaftWorker::compact_log`; `matched` is the progress of the peers, on a leader. */
    method CompactLog(matched: Option<seq<nat>>)
      requires Valid()
      modifies this, engine, storage
      ensures storage == old(storage) && storage.cache == old(storage.cache)
      ensures Valid() && View() == old(Step(View(), Tick(matched)))
    {
      hide CacheAgrees, Contiguous;
      StepKeepsInv(View(), Tick(matched));
      var to := flushed;
      if matched.Some? {
        var i := |matched.value|;
        assert matched.value[i..] == [];
        while i > 0
          invariant 0 <= i <= |matched.value|
          invariant to == MinOf(flushed, matched.value[i..])
        {
          i := i - 1;
          assert matched.value[i..][1..] == matched.value[i + 1..];
          to := if matched.value[i] < to then matched.value[i] else to;
        }
        assert matched.value[0..] == matched.value;
      }
      assert to == CompactionPoint(View(), matched);
      if storage.firstIndex < to {
        var batch, after := storage.CompactTo(to);
        engine.Write(batch);
        assert engine.state == after;
      }
    }

    /** `RaftNode::new` after a crash. `flushedTo` is what the state machine has made durable, which
        may include entries of a ready that was not persisted; `preApplied` says that it had taken
        over the snapshot on disk before the crash, but the log had not been reset yet; `starts` is
        Raft's own verdict on the applied index and the commit index it is started with. */
    method Reopen(flushedTo: nat, snap: Option<EntryId>, preApplied: bool, starts: (nat, nat) -> bool) returns (ok: bool)
      requires Valid() && Enabled(View(), Restart(flushedTo, snap, preApplied))
      modifies this, engine, storage, storage.cache
      ensures ok <==> old(!View().localLost && var r := Step(View(), Restart(flushedTo, snap, preApplied));
                          starts(r.applied, r.commit))
      ensures fresh(Repr() - old(Repr()))
      ensures ok ==> Valid() && View() == old(Step(View(), Restart(flushedTo, snap, preApplied)))
    {
      hide CacheAgrees, Contiguous, Detached, Behind;
      StepKeepsInv(View(), Restart(flushedTo, snap, preApplied));
      flushed := flushedTo;
      if preApplied {
        flushed := snap.value.index;
      }
      // try_apply_fresh_snapshot
      if snap.Some? && flushed < snap.value.index {
        flushed := snap.value.index;
      }
      if SlotsReadable(engine.state) { WholeLogOpens(engine.state, flushed); }
      var r := Open(engine, flushed);
      if !r.Opened? {
        return false;
      }
      storage := r.storage;
      applied := flushed;
      if snap.Some? {
        TryResetStorageState(snap.value);
      }
      return starts(applied, storage.hardState.commit);
    }

    /** `try_reset_storage_state`. */
    method TryResetStorageState(snap: EntryId)
      requires storage.engine == engine && storage.Valid()
      requires SlotsReadable(engine.state) && storage.lastTruncated.Some?
      requires engine.state.localSlot.value == LocalMessage(storage.lastTruncated)
      modifies engine, storage, storage.cache
      ensures fresh(storage.cache) || storage.cache == old(storage.cache)
      ensures storage.Valid() && SlotsReadable(engine.state) && storage.lastTruncated.Some?
      ensures engine.state.localSlot.value == LocalMessage(storage.lastTruncated)
      ensures var log := old(storage.ViewLog());
              if SnapshotReplaces(log, snap) then
                && storage.ViewLog() == Log(snap, []) && storage.cache.entries == []
                && storage.hardState.commit == engine.state.hardSlot.value.hs.commit == snap.index
              else
                && storage.ViewLog() == log && storage.cache.entries == old(storage.cache.entries)
                && storage.hardState == old(storage.hardState) && engine.state == old(engine.state)
    {
      hide CacheAgrees, Contiguous;
      if storage.Truncated().index < snap.index {
        var stale := !(storage.firstIndex <= snap.index <= storage.lastIndex);
        if !stale {
          var term := storage.Term(snap.index);
          stale := term.value < snap.term;
        }
        if stale {
          ResetTo(snap, None);
        }
      }
    }

    /** A tick and then a crash: a node whose local state is intact opens again exactly when Raft
        accepts the start and the tick did not compact beyond the commit index in memory. */
    method CompactThenReopen(matched: Option<seq<nat>>, starts: (nat, nat) -> bool) returns (ok: bool)
      requires Valid() && !View().localLost
      modifies this, engine, storage, storage.cache
      ensures ok <==> old(starts(flushed, View().durableCommit)
                          && var to := CompactionPoint(View(), matched);
                          !(storage.firstIndex < to && storage.hardState.commit < to))
    {
      hide CacheAgrees, Contiguous;
      CompactLog(matched);
      ok := Reopen(flushed, None, false, starts);
    }

    /** Any run that respects Raft's contract: the node behaves like the plain log. */
    method Drive(ops: seq<Op>, starts: (nat, nat) -> bool)
      requires Valid() && RunEnabled(View(), ops) && StartsAccepted(View(), ops, starts)
      modifies this, engine, storage, storage.cache
      ensures fresh(Repr() - old(Repr()))
      ensures Valid() && View() == old(Run(View(), ops))
      decreases |ops|
    {
      if ops == [] {
        return;
      }
      hide Step, Enabled, CacheAgrees, Contiguous, Storage.Holds, Node.UnappliedCached;
      StepKeepsInv(View(), ops[0]);
      match ops[0] {
        case Ready(applyTo, hs, es) => HandleReady(applyTo, hs, es);
        case InstallSnapshot(id, hs) => Install(id, hs);
        case Flush(index) => FlushTo(index);
        case Tick(matched) => CompactLog(matched);
        case Restart(flushedTo, snap, preApplied) => var _ := Reopen(flushedTo, snap, preApplied, starts);
      }
      Drive(ops[1..], starts);
    }
  }

  /** If Raft accepts a start with an applied index `a` that the stored commit index `c` does not
      cover, a new replica can get into a state in which it cannot be opened any more: it applies
      and flushes entries whose commit index is lost in a crash, starts again, and compacts. */
  method LoseLocalState(engine: Engine, a: nat, c: nat, starts: (nat, nat) -> bool) returns (ok: bool)
    requires engine.state.Wf() && c < a && 2 <= a && starts(a, c)
    modifies engine
    ensures !ok
  {
    hide Step, CacheAgrees, Contiguous, Storage.Holds, Node.UnappliedCached, RunEnabled, Run, LosingRun, StartsAccepted;
    var node := Bootstrap(engine, 1, Blank(c));
    LosingRunLoses(a, c, starts);
    node.Drive(LosingRun(a, c), starts);
    ok := node.Reopen(node.flushed, None, false, starts);
  }

  lemma PlainRestart(r: Replica)
    requires r.Inv()
    ensures Enabled(r, Restart(r.flushed, None, false))
    ensures var r' := Step(r, Restart(r.flushed, None, false)); r'.applied == r.flushed && r'.commit == r.durableCommit
  {
  }

  /** If Raft accepts only starts whose commit index covers what is applied, and all of those, a new
      replica can be opened again after any run. */
  method CoveredReplicaOpens(engine: Engine, replicaId: nat, payloads: seq<(nat, nat)>, ops: seq<Op>,
                             starts: (nat, nat) -> bool)
    returns (ok: bool)
    requires engine.state.Wf() && forall a: nat, c: nat :: starts(a, c) <==> a <= c
    requires RunEnabled(NewReplica(payloads), ops) && StartsAccepted(NewReplica(payloads), ops, starts)
    modifies engine
    ensures ok
  {
    hide Step, CacheAgrees, Contiguous, Storage.Holds, Node.UnappliedCached, RunEnabled, Run, StartsAccepted;
    var node := Bootstrap(engine, replicaId, payloads);
    CoveredRunKeeps(NewReplica(payloads), ops, starts);
    node.Drive(ops, starts);
    PlainRestart(node.View());
    ok := node.Reopen(node.flushed, None, false, starts);
  }
}
