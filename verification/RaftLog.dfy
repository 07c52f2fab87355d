/** The plain log that the Raft storage of a replica has to behave like, and its life:
    a truncation point and the entries after it, with the applied and flushed positions. */
module RaftLog {
  import opened EntryIds
  import opened Options

  /** A log entry; only the lengths of its payload matter here. */
  datatype Entry = Entry(index: nat, term: nat, dataLen: nat, encodedLen: nat)

  datatype HardState = HardState(term: nat, vote: nat, commit: nat)

  /** `es` has consecutive indexes from `first` on. */
  predicate Contiguous(es: seq<Entry>, first: int) {
    forall i :: 0 <= i < |es| ==> es[i].index == first + i
  }

  function TotalLen(es: seq<Entry>): nat {
    if es == [] then 0 else TotalLen(es[..|es| - 1]) + es[|es| - 1].encodedLen
  }

  datatype Log = Log(truncated: EntryId, entries: seq<Entry>) {
    predicate Wf() { Contiguous(entries, truncated.index + 1) }

    function First(): nat { truncated.index + 1 }

    function Last(): nat { truncated.index + |entries| }

    function At(index: nat): Entry
      requires First() <= index <= Last()
    {
      entries[index - First()]
    }

    function TermAt(index: nat): nat
      requires truncated.index <= index <= Last()
    {
      if index == truncated.index then truncated.term else At(index).term
    }

    /** The entries in `[low, high)`. */
    function Slice(low: nat, high: nat): seq<Entry>
      requires First() <= low <= high <= Last() + 1
    {
      entries[low - First()..high - First()]
    }

    lemma SliceSplit(low: nat, mid: nat, high: nat)
      requires First() <= low <= mid <= high <= Last() + 1
      ensures Slice(low, high) == Slice(low, mid) + Slice(mid, high)
      ensures Slice(low, high)[..mid - low] == Slice(low, mid)
    {
    }

    /** New entries replace everything from their first index on. */
    function Append(es: seq<Entry>): Log
      requires es != [] ==> First() <= es[0].index <= Last() + 1
    {
      if es == [] then this else this.(entries := entries[..es[0].index - First()] + es)
    }

    /** Drops the entries below `to`, remembering the term of the last one dropped. */
    function Compact(to: nat): Log
      requires First() <= to <= Last() + 1
    {
      Log(EntryId(to - 1, TermAt(to - 1)), entries[to - First()..])
    }
  }

  // ---------------------------------------------------------------- the life of a replica

  /** `commit` is the commit index held in memory, `durableCommit` the one stored under the
      hard-state key; `localLost` says that the local-state key no longer holds a local state. */
  datatype Replica = Replica(log: Log, applied: nat, flushed: nat, commit: nat, durableCommit: nat, localLost: bool)
  {
    /** Compaction never passes what is flushed, and nothing applied is missing. */
    predicate Inv() {
      log.Wf() && log.truncated.index <= flushed <= applied <= log.Last()
    }
  }

  /** `Restart` is a crash and what follows. A ready is applied before it is persisted, so the
      state machine may have flushed entries, up to `flushedTo`, of a ready whose write the crash
      cut off. `preApplied`: it had also taken over the snapshot on disk. */
  datatype Op =
    | Ready(applyTo: nat, hs: Option<HardState>, entries: seq<Entry>)
    | InstallSnapshot(id: EntryId, hs: Option<HardState>)
    | Flush(index: nat)
    | Tick(matched: Option<seq<nat>>)
    | Restart(flushedTo: nat, snap: Option<EntryId>, preApplied: bool)

  /** What Raft promises: the entries of a ready to be applied are stored and committed according
      to the hard state in force, which is part of the ready whenever it has changed and never
      takes its commit index back; written entries are consecutive, attach to the log and come
      after what is applied; an accepted snapshot is newer than what is applied; a snapshot on
      disk agrees with the applied part of the log. */
  predicate Enabled(r: Replica, op: Op)
    requires r.Inv()
  {
    match op
    case Ready(applyTo, hs, es) =>
      && r.applied <= applyTo <= r.log.Last()
      && (r.applied < applyTo ==> applyTo <= if hs.Some? then hs.value.commit else r.commit)
      && (hs.Some? ==> r.durableCommit <= hs.value.commit)
      && (es != [] ==> applyTo < es[0].index <= r.log.Last() + 1 && Contiguous(es, es[0].index))
    case InstallSnapshot(id, _) => r.applied < id.index
    case Flush(index) => r.flushed <= index <= r.applied
    case Tick(_) => true
    case Restart(flushedTo, snap, preApplied) =>
      && r.flushed <= flushedTo <= r.log.Last()
      && (preApplied ==> snap.Some? && flushedTo < snap.value.index)
      && (snap.Some? && r.log.truncated.index < snap.value.index <= flushedTo ==>
            r.log.TermAt(snap.value.index) >= snap.value.term)
  }

  function MinOf(bound: nat, ms: seq<nat>): (m: nat)
    ensures m <= bound && forall i :: 0 <= i < |ms| ==> m <= ms[i]
    ensures m == bound || m in ms
  {
    if ms == [] then bound
    else
      var rest := MinOf(bound, ms[1..]);
      if ms[0] < rest then ms[0] else rest
  }

  /** The compaction point of a tick: flushed, and on a leader matched by every peer. */
  function CompactionPoint(r: Replica, matched: Option<seq<nat>>): (to: nat)
    ensures to <= r.flushed && (to == r.flushed || (matched.Some? && to in matched.value))
    ensures matched.Some? ==> forall i :: 0 <= i < |matched.value| ==> to <= matched.value[i]
  {
    if matched.Some? then MinOf(r.flushed, matched.value) else r.flushed
  }

  /** A snapshot on disk replaces the log when the log lacks its entry or has an older one. */
  predicate SnapshotReplaces(log: Log, id: EntryId) {
    && log.truncated.index < id.index
    && (id.index > log.Last() || log.TermAt(id.index) < id.term)
  }

  function Step(r: Replica, op: Op): (r': Replica)
    requires r.Inv() && Enabled(r, op)
  {
    match op
    case Ready(applyTo, hs, es) =>
      var r1 := r.(applied := applyTo, log := r.log.Append(es));
      if hs.Some? then r1.(commit := hs.value.commit, durableCommit := hs.value.commit) else r1
    case InstallSnapshot(id, _) => Replica(Log(id, []), id.index, id.index, id.index, id.index, false)
    case Flush(index) => r.(flushed := index)
    case Tick(matched) =>
      var to := CompactionPoint(r, matched);
      if r.log.First() < to then
        r.(log := r.log.Compact(to), localLost := to > r.commit, commit := if to > r.commit then to else r.commit)
      else r
    case Restart(flushedTo, snap, _) =>
      var applied := if snap.Some? && flushedTo < snap.value.index then snap.value.index else flushedTo;
      var r1 := r.(applied := applied, flushed := applied, commit := r.durableCommit);
      if snap.Some? && SnapshotReplaces(r.log, snap.value) then
        r1.(log := Log(snap.value, []), commit := snap.value.index, durableCommit := snap.value.index,
            localLost := false)
      else r1
  }

  /** Every step keeps the invariant: in particular `First() <= flushed + 1`. */
  lemma StepKeepsInv(r: Replica, op: Op)
    requires r.Inv() && Enabled(r, op)
    ensures Step(r, op).Inv()
  {
    match op
    case Ready(applyTo, hs, es) =>
      var l := r.log.Append(es);
      assert l.Wf();
    case Tick(matched) =>
      var to := CompactionPoint(r, matched);
      if r.log.First() < to { assert r.log.Compact(to).Wf(); }
    case _ =>
  }

  /** A tick drops only entries that are flushed and, on a leader, matched by every peer. */
  lemma TickDropsOnlyMatched(r: Replica, matched: Option<seq<nat>>, index: nat)
    requires r.Inv()
    requires r.log.First() <= index < Step(r, Tick(matched)).log.First()
    ensures index < r.flushed
    ensures matched.Some? ==> forall i :: 0 <= i < |matched.value| ==> index < matched.value[i]
  {
  }

  // ---------------------------------------------------------------- runs

  predicate RunEnabled(r: Replica, ops: seq<Op>)
    requires r.Inv()
    decreases |ops|
  {
    ops == [] ||
    (Enabled(r, ops[0]) && (ops[0].Restart? ==> !r.localLost)
     && (StepKeepsInv(r, ops[0]); RunEnabled(Step(r, ops[0]), ops[1..])))
  }

  function Run(r: Replica, ops: seq<Op>): Replica
    requires r.Inv() && RunEnabled(r, ops)
    decreases |ops|
  {
    if ops == [] then r else StepKeepsInv(r, ops[0]); Run(Step(r, ops[0]), ops[1..])
  }

  /** In every reachable state nothing that is not flushed has been compacted away. */
  lemma {:induction false} RunKeepsInv(r: Replica, ops: seq<Op>)
    requires r.Inv() && RunEnabled(r, ops)
    ensures Run(r, ops).Inv()
    decreases |ops|
  {
    if ops != [] {
      StepKeepsInv(r, ops[0]);
      RunKeepsInv(Step(r, ops[0]), ops[1..]);
    }
  }

  // ---------------------------------------------------------------- what the log keeps

  /** Compaction leaves the term of every index that can still be asked for, the new truncation point
      included, and every entry that is left. */
  lemma CompactKeeps(log: Log, to: nat, i: nat)
    requires log.Wf() && log.First() <= to <= log.Last() + 1 && to - 1 <= i <= log.Last()
    ensures var c := log.Compact(to);
            && c.First() == to && c.Last() == log.Last() && c.TermAt(i) == log.TermAt(i)
            && (to <= i ==> c.At(i) == log.At(i))
  {
  }

  /** Appending puts the new entries at their indexes, ends with the last of them, and leaves what is
      below the first. */
  lemma AppendPuts(log: Log, es: seq<Entry>, i: nat)
    requires log.Wf() && es != [] && log.First() <= es[0].index <= log.Last() + 1 && Contiguous(es, es[0].index)
    requires log.truncated.index <= i <= es[|es| - 1].index
    ensures var l := log.Append(es);
            && l.truncated == log.truncated && l.Last() == es[|es| - 1].index
            && (i < es[0].index ==> l.TermAt(i) == log.TermAt(i) && (log.First() <= i ==> l.At(i) == log.At(i)))
            && (es[0].index <= i ==> l.At(i) == es[i - es[0].index] && l.TermAt(i) == es[i - es[0].index].term)
  {
  }

  /** After a restart with a snapshot on disk beyond the truncation point, the log has an entry at its
      index, not of an older term; and the log is left alone if it had one before. */
  lemma RestartMatchesSnapshot(r: Replica, flushedTo: nat, snap: EntryId, preApplied: bool)
    requires r.Inv() && Enabled(r, Restart(flushedTo, Some(snap), preApplied)) && r.log.truncated.index < snap.index
    ensures var l := Step(r, Restart(flushedTo, Some(snap), preApplied)).log;
            && l.truncated.index <= snap.index <= l.Last() && snap.term <= l.TermAt(snap.index)
            && (snap.index <= r.log.Last() && snap.term <= r.log.TermAt(snap.index) ==> l == r.log)
  {
  }

  /** Every step keeps the term of a flushed index that can still be asked for. */
  lemma StepKeepsTerm(r: Replica, op: Op, i: nat)
    requires r.Inv() && Enabled(r, op) && i <= r.flushed
    requires r.log.truncated.index <= i && Step(r, op).log.truncated.index <= i
    ensures i <= Step(r, op).log.Last() && Step(r, op).log.TermAt(i) == r.log.TermAt(i)
    ensures r.log.First() <= i && Step(r, op).log.First() <= i ==> Step(r, op).log.At(i) == r.log.At(i)
    ensures i <= Step(r, op).flushed
  {
    match op {
      case Ready(_, _, es) => if es != [] { AppendPuts(r.log, es, i); }
      case Tick(matched) =>
        var to := CompactionPoint(r, matched);
        if r.log.First() < to { CompactKeeps(r.log, to, i); }
      case _ =>
    }
  }

  /** Where a step leaves the positions and the ends of the log: a ready applies what it hands out and
      stores its entries, a snapshot moves everything to its index, a tick compacts to the least of
      what is flushed and matched and nothing else, and a restart begins at what was durable. */
  lemma StepPositions(r: Replica, op: Op)
    requires r.Inv() && Enabled(r, op)
    ensures var r' := Step(r, op);
            match op
            case Ready(applyTo, hs, es) =>
              && r'.applied == applyTo && r'.flushed == r.flushed && r'.log.First() == r.log.First()
              && r'.log.Last() == (if es == [] then r.log.Last() else es[|es| - 1].index)
              && (hs.Some? ==> r'.commit == r'.durableCommit == hs.value.commit)
              && (hs.None? ==> r'.commit == r.commit && r'.durableCommit == r.durableCommit)
            case InstallSnapshot(id, _) =>
              && r'.applied == r'.flushed == r'.commit == r'.durableCommit == r'.log.Last() == id.index
              && r'.log.truncated == id && !r'.localLost
            case Flush(index) => r' == r.(flushed := index)
            case Tick(matched) =>
              && r'.applied == r.applied && r'.flushed == r.flushed && r'.durableCommit == r.durableCommit
              && r'.log.Last() == r.log.Last()
              && (r.log.First() >= CompactionPoint(r, matched) ==> r' == r)
              && (r.log.First() < CompactionPoint(r, matched) ==> r'.log.First() == CompactionPoint(r, matched))
              && (r'.commit != r.commit ==> r.commit < r'.commit == r'.log.First())
            case Restart(flushedTo, snap, _) =>
              && flushedTo <= r'.applied == r'.flushed <= r'.log.Last()
              && (snap.None? || snap.value.index <= flushedTo ==> r'.flushed == flushedTo)
              && (snap.Some? ==> snap.value.index <= r'.flushed)
              && (r'.log == r.log ==> r'.commit == r'.durableCommit == r.durableCommit || r'.commit == snap.value.index)
  {
  }

  /** Between two readies, snapshots or restarts no index that can still be asked for changes its term. */
  lemma {:induction false} QuietRunKeepsTerms(r: Replica, ops: seq<Op>, i: nat)
    requires r.Inv() && RunEnabled(r, ops) && forall k :: 0 <= k < |ops| ==> ops[k].Tick? || ops[k].Flush?
    requires r.log.truncated.index <= i <= r.log.Last() && Run(r, ops).log.truncated.index <= i
    ensures Run(r, ops).log.Last() == r.log.Last() && Run(r, ops).log.TermAt(i) == r.log.TermAt(i)
    decreases |ops|
  {
    if ops != [] {
      StepKeepsInv(r, ops[0]);
      RunTruncates(Step(r, ops[0]), ops[1..]);
      if ops[0].Tick? {
        var to := CompactionPoint(r, ops[0].matched);
        if r.log.First() < to { CompactKeeps(r.log, to, i); }
      }
      QuietRunKeepsTerms(Step(r, ops[0]), ops[1..], i);
    }
  }

  lemma StepTruncates(r: Replica, op: Op)
    requires r.Inv() && Enabled(r, op)
    ensures r.log.truncated.index <= Step(r, op).log.truncated.index
  {
  }

  lemma {:induction false} RunTruncates(r: Replica, ops: seq<Op>)
    requires r.Inv() && RunEnabled(r, ops)
    ensures r.log.truncated.index <= Run(r, ops).log.truncated.index
    decreases |ops|
  {
    if ops != [] {
      StepKeepsInv(r, ops[0]);
      StepTruncates(r, ops[0]);
      RunTruncates(Step(r, ops[0]), ops[1..]);
    }
  }

  /** Over every run, with appends, compactions, snapshots and crashes: the term of what has once been
      flushed never changes as long as it can be asked for, nor the entry as long as it is there. */
  lemma {:induction false} FlushedStays(r: Replica, ops: seq<Op>, i: nat)
    requires r.Inv() && RunEnabled(r, ops) && r.log.truncated.index <= i <= r.flushed
    requires Run(r, ops).log.truncated.index <= i
    ensures i <= Run(r, ops).log.Last() && Run(r, ops).log.TermAt(i) == r.log.TermAt(i)
    ensures r.log.First() <= i && Run(r, ops).log.First() <= i ==> Run(r, ops).log.At(i) == r.log.At(i)
    decreases |ops|
  {
    if ops != [] {
      StepKeepsInv(r, ops[0]);
      RunTruncates(Step(r, ops[0]), ops[1..]);
      StepKeepsTerm(r, ops[0], i);
      FlushedStays(Step(r, ops[0]), ops[1..], i);
    }
  }

  // ---------------------------------------------------------------- the local state

  /** A tick that compacts beyond the commit index in memory. */
  predicate Loses(r: Replica, op: Op) {
    op.Tick? && var to := CompactionPoint(r, op.matched); r.log.First() < to && r.commit < to
  }

  /** No step of the run compacts beyond the commit index. */
  predicate NeverLoses(r: Replica, ops: seq<Op>)
    requires r.Inv() && RunEnabled(r, ops)
    decreases |ops|
  {
    ops == [] || (!Loses(r, ops[0]) && (StepKeepsInv(r, ops[0]); NeverLoses(Step(r, ops[0]), ops[1..])))
  }

  lemma {:induction false} PrefixEnabled(r: Replica, ops: seq<Op>, n: nat)
    requires r.Inv() && RunEnabled(r, ops) && n <= |ops|
    ensures RunEnabled(r, ops[..n])
    decreases n
  {
    if n > 0 {
      StepKeepsInv(r, ops[0]);
      assert ops[..n][1..] == ops[1..][..n - 1];
      PrefixEnabled(Step(r, ops[0]), ops[1..], n - 1);
    }
  }

  /** The local state is there after every step of the run. */
  ghost predicate KeptThroughout(r: Replica, ops: seq<Op>)
    requires r.Inv() && RunEnabled(r, ops)
  {
    forall n :: 0 <= n <= |ops| ==> (PrefixEnabled(r, ops, n); !Run(r, ops[..n]).localLost)
  }

  /** Over every run, the local state survives throughout exactly when no tick compacts beyond the
      commit index. */
  lemma {:induction false} LocalStateKeptIff(r: Replica, ops: seq<Op>)
    requires r.Inv() && RunEnabled(r, ops) && !r.localLost
    ensures KeptThroughout(r, ops) <==> NeverLoses(r, ops)
    decreases |ops|
  {
    if ops != [] {
      StepKeepsInv(r, ops[0]);
      var r', rest := Step(r, ops[0]), ops[1..];
      forall n | 0 < n <= |ops|
        ensures RunEnabled(r, ops[..n]) && RunEnabled(r', rest[..n - 1]) && Run(r, ops[..n]) == Run(r', rest[..n - 1])
      {
        PrefixEnabled(r, ops, n);
        PrefixEnabled(r', rest, n - 1);
        assert ops[..n][1..] == rest[..n - 1];
      }
      assert Run(r, ops[..1]) == r';
      if !Loses(r, ops[0]) {
        assert !r'.localLost;
        LocalStateKeptIff(r', rest);
        if KeptThroughout(r, ops) {
          forall n | 0 <= n <= |rest| ensures (PrefixEnabled(r', rest, n); !Run(r', rest[..n]).localLost) {
            PrefixEnabled(r', rest, n);
            assert Run(r, ops[..n + 1]) == Run(r', rest[..n]);
          }
        }
        if NeverLoses(r, ops) {
          forall n | 0 <= n <= |ops| ensures (PrefixEnabled(r, ops, n); !Run(r, ops[..n]).localLost) {
            PrefixEnabled(r, ops, n);
            if n > 0 { assert Run(r, ops[..n]) == Run(r', rest[..n - 1]); }
          }
        }
      }
    }
  }

  /** Raft accepts every start of the run: `starts` is its verdict on the applied index and the stored
      commit index it is started with. */
  predicate StartsAccepted(r: Replica, ops: seq<Op>, starts: (nat, nat) -> bool)
    requires r.Inv() && RunEnabled(r, ops)
    decreases |ops|
  {
    ops == [] ||
    (StepKeepsInv(r, ops[0]);
     var r' := Step(r, ops[0]);
     (ops[0].Restart? ==> starts(r'.applied, r'.commit)) && StartsAccepted(r', ops[1..], starts))
  }

  predicate NoRestart(ops: seq<Op>) {
    forall i :: 0 <= i < |ops| ==> !ops[i].Restart?
  }

  /** The commit index is behind what is applied, with entries below it still in the log. */
  predicate Lagging(r: Replica) {
    r.commit < r.applied && r.log.First() < r.applied
  }

  lemma {:induction false} NotLaggingNeverLoses(r: Replica, ops: seq<Op>)
    requires r.Inv() && RunEnabled(r, ops) && NoRestart(ops) && r.commit == r.durableCommit && !Lagging(r)
    ensures NeverLoses(r, ops)
    decreases |ops|
  {
    if ops != [] {
      StepKeepsInv(r, ops[0]);
      NotLaggingNeverLoses(Step(r, ops[0]), ops[1..]);
    }
  }

  /** From any state whose hard state is the stored one, in particular after a restart, the local
      state can get lost before the next restart exactly when the commit index is lagging. */
  lemma LossAheadIff(r: Replica)
    requires r.Inv() && r.commit == r.durableCommit
    ensures (exists ops :: RunEnabled(r, ops) && NoRestart(ops) && !NeverLoses(r, ops)) <==> Lagging(r)
  {
    if Lagging(r) {
      var ops := [Flush(r.applied), Tick(None)];
      var r1 := Step(r, ops[0]);
      StepKeepsInv(r, ops[0]);
      OneStep(r1, ops[1]);
      assert ops[1..] == [ops[1]];
      assert RunEnabled(r, ops) && NoRestart(ops) && !NeverLoses(r, ops);
    } else {
      forall ops | RunEnabled(r, ops) && NoRestart(ops) ensures NeverLoses(r, ops) { NotLaggingNeverLoses(r, ops); }
    }
  }

  /** Started only with a commit index that covers what is applied, except for the first entry, Raft
      keeps it so, and no tick ever loses the local state. */
  lemma {:induction false} CoveredNeverLoses(r: Replica, ops: seq<Op>, starts: (nat, nat) -> bool)
    requires r.Inv() && RunEnabled(r, ops) && StartsAccepted(r, ops, starts)
    requires r.commit == r.durableCommit && !Lagging(r)
    requires forall a: nat, c: nat :: starts(a, c) ==> a <= c || a < 2
    ensures NeverLoses(r, ops)
    decreases |ops|
  {
    if ops != [] {
      StepKeepsInv(r, ops[0]);
      CoveredNeverLoses(Step(r, ops[0]), ops[1..], starts);
    }
  }

  /** Entries of one term, from `first` on. */
  function Entries(first: nat, n: nat, term: nat): (es: seq<Entry>)
    ensures |es| == n && Contiguous(es, first)
  {
    seq(n, i requires 0 <= i < n => Entry(first + i, term, 0, 0))
  }

  /** A new replica: one committed entry of term 1 per initial payload, given by the lengths of its
      data and its encoding. */
  function NewReplica(payloads: seq<(nat, nat)>): (r: Replica)
    ensures r.Inv() && r.log.Last() == |payloads|
  {
    var es := seq(|payloads|, i requires 0 <= i < |payloads| => Entry(i + 1, 1, payloads[i].0, payloads[i].1));
    Replica(Log(EntryId(0, 0), es), 0, 0, |payloads|, |payloads|, false)
  }

  function Blank(n: nat): (payloads: seq<(nat, nat)>)
    ensures |payloads| == n
  {
    seq(n, _ => (0, 0))
  }

  /** Entries up to `a` are written; then they are committed, applied and flushed, and the crash comes
      before the hard state that says so is written, which leaves the commit index at `c`; then a
      tick. */
  function LosingRun(a: nat, c: nat): seq<Op>
    requires c < a
  {
    [Ready(0, None, Entries(c + 1, a - c, 2)), Restart(a, None, false), Tick(None)]
  }

  /** If Raft accepts this start, the run loses the local state. */
  lemma LosingRunLoses(a: nat, c: nat, starts: (nat, nat) -> bool)
    requires c < a && 2 <= a && starts(a, c)
    ensures RunEnabled(NewReplica(Blank(c)), LosingRun(a, c))
    ensures StartsAccepted(NewReplica(Blank(c)), LosingRun(a, c), starts) && !NeverLoses(NewReplica(Blank(c)), LosingRun(a, c))
    ensures Run(NewReplica(Blank(c)), LosingRun(a, c)).localLost
  {
    var r, ops := NewReplica(Blank(c)), LosingRun(a, c);
    StepKeepsInv(r, ops[0]);
    var r1 := Step(r, ops[0]);
    StepKeepsInv(r1, ops[1]);
    var r2 := Step(r1, ops[1]);
    StepKeepsInv(r2, ops[2]);
    assert r2.applied == a && r2.commit == c && Loses(r2, ops[2]);
    FirstStep(r2, ops[2], [], starts);
    FirstStep(r1, ops[1], [ops[2]], starts);
    FirstStep(r, ops[0], [ops[1], ops[2]], starts);
    assert [ops[2]] == [ops[2]] + [] && ops[1..] == [ops[1]] + [ops[2]] && ops == [ops[0]] + [ops[1], ops[2]];
  }

  /** A run, step by step. */
  lemma FirstStep(r: Replica, op: Op, rest: seq<Op>, starts: (nat, nat) -> bool)
    requires r.Inv() && Enabled(r, op) && (op.Restart? ==> !r.localLost) && Step(r, op).Inv()
    requires RunEnabled(Step(r, op), rest)
    ensures var ops := [op] + rest;
            && RunEnabled(r, ops) && Run(r, ops) == Run(Step(r, op), rest)
            && (NeverLoses(r, ops) <==> !Loses(r, op) && NeverLoses(Step(r, op), rest))
            && (StartsAccepted(r, ops, starts) <==>
                (op.Restart? ==> starts(Step(r, op).applied, Step(r, op).commit)) && StartsAccepted(Step(r, op), rest, starts))
  {
    var ops := [op] + rest;
    assert ops[0] == op && ops[1..] == rest;
  }

  /** Some run of a new replica, all of whose starts Raft accepts, loses the local state. */
  ghost predicate LossPossible(starts: (nat, nat) -> bool) {
    exists payloads: seq<(nat, nat)>, ops: seq<Op> :: LosesFromNew(payloads, ops, starts)
  }

  ghost predicate LosesFromNew(payloads: seq<(nat, nat)>, ops: seq<Op>, starts: (nat, nat) -> bool) {
    && RunEnabled(NewReplica(payloads), ops) && StartsAccepted(NewReplica(payloads), ops, starts)
    && !NeverLoses(NewReplica(payloads), ops)
  }

  /** The local state of a replica can get lost exactly if Raft accepts some start with an applied
      index, above that of the first entry, that the stored commit index does not cover. */
  lemma LossPossibleIff(starts: (nat, nat) -> bool)
    ensures LossPossible(starts) <==> exists a: nat, c: nat :: starts(a, c) && c < a && 2 <= a
  {
    if a: nat, c: nat :| starts(a, c) && c < a && 2 <= a {
      LosingRunLoses(a, c, starts);
      assert LosesFromNew(Blank(c), LosingRun(a, c), starts);
    } else {
      forall payloads: seq<(nat, nat)>, ops: seq<Op> ensures !LosesFromNew(payloads, ops, starts) {
        if LosesFromNew(payloads, ops, starts) { CoveredNeverLoses(NewReplica(payloads), ops, starts); }
      }
    }
  }

  /** Started only with a commit index that covers what is applied, a replica keeps its local state and
      stays covered. */
  lemma {:induction false} CoveredRunKeeps(r: Replica, ops: seq<Op>, starts: (nat, nat) -> bool)
    requires r.Inv() && RunEnabled(r, ops) && StartsAccepted(r, ops, starts)
    requires !r.localLost && r.applied <= r.commit == r.durableCommit
    requires forall a: nat, c: nat :: starts(a, c) ==> a <= c
    ensures var r' := Run(r, ops); r'.Inv() && !r'.localLost && r'.applied <= r'.commit == r'.durableCommit
    decreases |ops|
  {
    if ops != [] {
      StepKeepsInv(r, ops[0]);
      CoveredRunKeeps(Step(r, ops[0]), ops[1..], starts);
    }
  }

  lemma OneStep(r: Replica, op: Op)
    requires r.Inv() && Enabled(r, op) && !op.Restart?
    ensures RunEnabled(r, [op]) && Run(r, [op]) == Step(r, op)
  {
    StepKeepsInv(r, op);
  }
}
