/** The storage handed to Raft (raftgroup/storage.rs): an in-memory cache of recent entries over
    the durable engine. */
module RaftStorage {
  import opened EntryIds
  import opened Options
  import opened RaftLog
  import opened RaftEngine

  datatype Read<+T> = Ok(value: T) | Compacted

  /** `WriteTask`: what one ready of Raft asks to persist. */
  datatype WriteTask = WriteTask(hardState: Option<HardState>, entries: seq<Entry>, snapshot: Option<EntryId>)

  lemma {:induction false} AddCommand(s: State, batch: seq<Command>, c: Command)
    requires s.Wf() && s.AcceptsAll(batch) && s.DoAll(batch).Accepts(c)
    ensures s.AcceptsAll(batch + [c]) && s.DoAll(batch + [c]) == s.DoAll(batch).Do(c)
    decreases |batch|
  {
    if batch == [] {
      assert batch + [c] == [c] && [c][1..] == [];
    } else {
      assert (batch + [c])[1..] == batch[1..] + [c];
      AddCommand(s.Do(batch[0]), batch[1..], c);
    }
  }

  lemma EmptyBatch(s: State)
    requires s.Wf()
    ensures s.AcceptsAll([]) && s.DoAll([]) == s
  {
  }

  // ---------------------------------------------------------------- entry cache

  /** The cached entries from the first index of `es` on give way to `es`. */
  function CacheAppend(cached: seq<Entry>, es: seq<Entry>): seq<Entry>
    requires cached != [] && es != [] ==> es[0].index <= cached[0].index + |cached|
  {
    if es == [] then cached
    else if cached == [] || es[0].index <= cached[0].index then es
    else cached[..es[0].index - cached[0].index] + es
  }

  class EntryCache {
    var entries: seq<Entry>

    constructor (entries: seq<Entry>)
      ensures this.entries == entries
    {
      this.entries := entries;
    }

    ghost predicate Valid()
      reads this
    {
      entries != [] ==> Contiguous(entries, entries[0].index)
    }

    /** `EntryCache::append`; a hole between the cache and the new entries panics. */
    method Append(es: seq<Entry>)
      requires Valid()
      requires es != [] ==> Contiguous(es, es[0].index)
      requires entries != [] && es != [] ==> es[0].index <= entries[0].index + |entries|
      modifies this
      ensures Valid()
      ensures entries == old(CacheAppend(entries, es))
    {
      if es == [] {
        return;
      }
      if entries != [] {
        var cacheLast := entries[|entries| - 1].index;
        var first := es[0].index;
        if cacheLast >= first {
          var overlap := cacheLast - first + 1;
          var truncateTo := if overlap <= |entries| then |entries| - overlap else 0;
          entries := entries[..truncateTo];
        }
      }
      entries := entries + es;
    }

    /** `EntryCache::drains_to`: gives up half of what has been applied. */
    method DrainsTo(applied: nat)
      requires Valid()
      requires entries != [] ==> entries[0].index <= applied < entries[0].index + |entries|
      modifies this
      ensures Valid()
      ensures old(entries) == [] ==> entries == []
      ensures old(entries) != [] ==>
                && entries == old(entries)[(applied - old(entries)[0].index) / 2..]
                && entries != [] && entries[0].index <= applied
    {
      if entries != [] {
        var len := applied - entries[0].index;
        entries := entries[len / 2..];
      }
    }

    /** `EntryCache::fetch_entries_to`: at least one entry, more while they fit. */
    method FetchEntriesTo(begin: nat, end: nat, maxSize: nat) returns (es: seq<Entry>)
      requires Valid() && entries != []
      requires entries[0].index <= begin < end <= entries[0].index + |entries|
      ensures var all := entries[begin - entries[0].index..end - entries[0].index];
              LongestFit(all, maxSize, es)
    {
      var start := begin - entries[0].index;
      var limit := end - begin;
      var window := entries[start..start + limit];
      var count, fetched := 0, 0;
      while count < limit && fetched + window[count].encodedLen <= maxSize
        invariant 0 <= count <= limit
        invariant fetched == TotalLen(window[..count]) <= maxSize
      {
        TotalLenStep(window, count);
        fetched := fetched + window[count].encodedLen;
        count := count + 1;
      }
      if count < limit {
        TotalLenStep(window, count);
        TotalLenMonotone(window, count + 1);
      }
      if count == 0 {
        count := 1;
        if limit > 1 { TotalLenStep(window, 1); }
      }
      es := window[..count];
    }
  }

  // ---------------------------------------------------------------- storage

  /** The cache is a tail of the log, possibly reaching back before its first entry. */
  ghost predicate CacheAgrees(cached: seq<Entry>, log: Log) {
    cached != [] ==>
      && Contiguous(cached, cached[0].index)
      && cached[0].index + |cached| == log.Last() + 1
      && (forall k {:trigger cached[k]} :: 0 <= k < |cached| && log.First() <= cached[k].index ==>
            cached[k] == log.At(cached[k].index))
  }

  /** Appending the same entries keeps the cache and the log in agreement. */
  lemma AppendAgrees(cached: seq<Entry>, log: Log, es: seq<Entry>)
    requires log.Wf() && CacheAgrees(cached, log)
    requires es != [] && Contiguous(es, es[0].index) && log.First() <= es[0].index <= log.Last() + 1
    ensures log.Append(es).Wf() && log.Append(es).Last() == es[|es| - 1].index
    ensures CacheAgrees(CacheAppend(cached, es), log.Append(es))
  {
    var c, l := CacheAppend(cached, es), log.Append(es);
    assert l.Wf() && l.Last() == es[|es| - 1].index;
    forall k {:trigger c[k]} | 0 <= k < |c| && l.First() <= c[k].index ensures c[k] == l.At(c[k].index) {
      AppendedAt(cached, log, es, k);
    }
  }

  lemma AppendedAt(cached: seq<Entry>, log: Log, es: seq<Entry>, k: nat)
    requires log.Wf() && CacheAgrees(cached, log)
    requires es != [] && Contiguous(es, es[0].index) && log.First() <= es[0].index <= log.Last() + 1
    requires k < |CacheAppend(cached, es)| && log.First() <= CacheAppend(cached, es)[k].index <= es[|es| - 1].index
    ensures CacheAppend(cached, es)[k] == log.Append(es).At(CacheAppend(cached, es)[k].index)
  {
    var c := CacheAppend(cached, es);
    var kept := |c| - |es|;
    if k < kept { assert c[k] == cached[k]; } else { assert c[k] == es[k - kept]; }
  }

  /** Compaction leaves the cache alone; it still agrees with what is left of the log. */
  lemma CompactAgrees(cached: seq<Entry>, log: Log, to: nat)
    requires log.Wf() && CacheAgrees(cached, log)
    requires log.First() <= to <= log.Last() + 1
    ensures log.Compact(to).Wf() && CacheAgrees(cached, log.Compact(to))
    ensures log.entries != [] ==> Contiguous(log.entries, log.entries[0].index)
    ensures DropBelow(log.entries, to) == log.Compact(to).entries
    ensures log.Compact(to).Last() == log.Last()
  {
  }

  ghost predicate LenBounded(es: seq<Entry>) {
    forall i :: 0 <= i < |es| ==> es[i].dataLen <= es[i].encodedLen
  }

  function DataLen(es: seq<Entry>): nat {
    if es == [] then 0 else DataLen(es[..|es| - 1]) + es[|es| - 1].dataLen
  }

  lemma {:induction false} DataLenBounded(es: seq<Entry>)
    requires LenBounded(es)
    ensures DataLen(es) <= TotalLen(es)
    decreases |es|
  {
    if es != [] { DataLenBounded(es[..|es| - 1]); }
  }

  /** What is left of the limit for the cache: the entries before it count with their data only. */
  function Budget(head: seq<Entry>, maxSize: nat): nat {
    if DataLen(head) <= maxSize then maxSize - DataLen(head) else 0
  }

  /** What a read of `all` answers of which the entries from `split` on are in the cache: the longest
      fit of the part before, and, if that part was read completely, the longest fit of the rest in
      what is left, of which there is always one. */
  predicate ReadInParts(all: seq<Entry>, split: nat, maxSize: nat, es: seq<Entry>)
    requires split <= |all|
  {
    if split == 0 || split == |all| then LongestFit(all, maxSize, es)
    else
      var head := all[..split];
      if split > 1 && TotalLen(head) > maxSize then LongestFit(head, maxSize, es)
      else head <= es && LongestFit(all[split..], Budget(head, maxSize), es[split..])
  }

  lemma ReadsHead(log: Log, low: nat, end: nat, high: nat, maxSize: nat, es: seq<Entry>)
    requires log.First() <= low < end <= high <= log.Last() + 1 && LongestFit(log.Slice(low, end), maxSize, es)
    requires |es| < end - low || end == high
    ensures ReadInParts(log.Slice(low, high), end - low, maxSize, es)
  {
    log.SliceSplit(low, end, high);
    LongestFitUnique(log.Slice(low, end), maxSize, es, es);
  }

  lemma ReadsBoth(log: Log, low: nat, begin: nat, high: nat, maxSize: nat, es: seq<Entry>, more: seq<Entry>)
    requires log.First() <= low <= begin < high <= log.Last() + 1 && |es| == begin - low
    requires low < begin ==> LongestFit(log.Slice(low, begin), maxSize, es)
    requires LongestFit(log.Slice(begin, high), Budget(es, maxSize), more)
    ensures ReadInParts(log.Slice(low, high), begin - low, maxSize, es + more)
  {
    log.SliceSplit(low, begin, high);
    if low < begin {
      LongestFitUnique(log.Slice(low, begin), maxSize, es, es);
      assert es == log.Slice(low, begin) && log.Slice(low, high)[begin - low..] == log.Slice(begin, high);
      assert (es + more)[begin - low..] == more;
    } else {
      assert es + more == more;
    }
  }

  /** Adding entries of the rest never exceeds the limit: the first fits behind the part before, and
      any that fit in the budget do. */
  predicate KeepsLimit(head: seq<Entry>, rest: seq<Entry>, maxSize: nat) {
    forall n :: 1 <= n <= |rest| && (n == 1 || TotalLen(rest[..n]) <= Budget(head, maxSize)) ==>
      TotalLen(head) + TotalLen(rest[..n]) <= maxSize
  }

  /** A read answers the longest fit of the range exactly if the range is not split, the part before the
      cache does not fit, or adding to it keeps the limit. */
  lemma ReadIsLongestFitIff(all: seq<Entry>, split: nat, maxSize: nat, es: seq<Entry>)
    requires split <= |all| && LenBounded(all) && ReadInParts(all, split, maxSize, es)
    ensures LongestFit(all, maxSize, es) <==>
              || split == 0 || split == |all| || (split > 1 && TotalLen(all[..split]) > maxSize)
              || KeepsLimit(all[..split], all[split..], maxSize)
  {
    if 0 < split < |all| {
      var head, rest := all[..split], all[split..];
      if split > 1 && TotalLen(head) > maxSize {
        HeadOnly(all, split, maxSize, es);
      } else {
        JoinedFits(head, rest, maxSize, es);
        assert head + rest == all;
      }
    }
  }

  lemma HeadOnly(all: seq<Entry>, split: nat, maxSize: nat, es: seq<Entry>)
    requires 1 < split < |all| && TotalLen(all[..split]) > maxSize && LongestFit(all[..split], maxSize, es)
    ensures LongestFit(all, maxSize, es)
  {
    LongestFitUnique(all[..split], maxSize, es, es);
    assert |es| < split && all[..split][..|es| + 1] == all[..|es| + 1];
  }

  lemma JoinedFits(head: seq<Entry>, rest: seq<Entry>, maxSize: nat, es: seq<Entry>)
    requires head != [] && LenBounded(head + rest)
    requires head <= es && LongestFit(rest, Budget(head, maxSize), es[|head|..])
    ensures LongestFit(head + rest, maxSize, es) <==> KeepsLimit(head, rest, maxSize)
  {
    hide TotalLen, DataLen;
    var more := es[|head|..];
    var n := |more|;
    assert es == head + more && more == rest[..n];
    TotalLenConcat(head, more);
    if KeepsLimit(head, rest, maxSize) {
      if n < |rest| {
        assert forall i :: 0 <= i < |head| ==> head[i] == (head + rest)[i];
        DataLenBounded(head);
        TotalLenConcat(head, rest[..n + 1]);
        assert (head + rest)[..|es| + 1] == head + rest[..n + 1];
      }
    } else {
      var m :| 1 <= m <= |rest| && (m == 1 || TotalLen(rest[..m]) <= Budget(head, maxSize))
               && TotalLen(head) + TotalLen(rest[..m]) > maxSize;
      LongestFitAtLeast(rest, Budget(head, maxSize), more, m);
      TotalLenMonotone(more, m);
      assert more[..m] == rest[..m];
    }
  }

  /** A beginning of the range, not empty, and all of it if that fits. */
  ghost predicate GoodRead(all: seq<Entry>, maxSize: nat, es: seq<Entry>) {
    && es != [] && es <= all
    && (TotalLen(all) <= maxSize && LenBounded(all) ==> es == all)
  }

  lemma ReadIsPrefix(all: seq<Entry>, split: nat, maxSize: nat, es: seq<Entry>)
    requires split <= |all| && ReadInParts(all, split, maxSize, es)
    ensures GoodRead(all, maxSize, es)
  {
    hide TotalLen, DataLen;
    var head, rest := all[..split], all[split..];
    assert head + rest == all;
    TotalLenConcat(head, rest);
    if split == 0 || split == |all| {
      LongestFitUnique(all, maxSize, es, es);
    } else if !(split > 1 && TotalLen(head) > maxSize) {
      LongestFitUnique(rest, Budget(head, maxSize), es[split..], es[split..]);
      assert es == head + es[split..];
      if LenBounded(all) {
        assert forall i :: 0 <= i < |head| ==> head[i] == all[i];
        DataLenBounded(head);
      }
    }
  }

  /** A limit of ten is exceeded: the entry in the engine fills it, and the first one of the cache is
      added nevertheless. */
  lemma FirstCachedExceeds(a: Entry, b: Entry)
    requires a.encodedLen == 10 && b.encodedLen == 10
    ensures ReadInParts([a, b], 1, 10, [a, b]) && !LongestFit([a, b], 10, [a, b])
  {
    Lengths(a, b, b);
    assert [a, b][..1] == [a] && [a, b][1..] == [b];
  }

  /** A limit of ten is exceeded: the entry in the engine takes six of it, of which only the two of its
      data are counted, so that two of four each are added from the cache. */
  lemma DataBudgetExceeds(a: Entry, b: Entry, c: Entry)
    requires a.encodedLen == 6 && a.dataLen == 2 && b.encodedLen == 4 && c.encodedLen == 4
    ensures ReadInParts([a, b, c], 1, 10, [a, b, c]) && LongestFit([a, b, c], 10, [a, b])
  {
    Lengths(a, b, c);
    assert [a, b, c][..1] == [a] && [a, b, c][1..] == [b, c] && [a, b, c][..3] == [a, b, c];
  }

  lemma Lengths(a: Entry, b: Entry, c: Entry)
    ensures TotalLen([a]) == a.encodedLen && DataLen([a]) == a.dataLen && TotalLen([b]) == b.encodedLen
    ensures TotalLen([a, b]) == a.encodedLen + b.encodedLen && TotalLen([b, c]) == b.encodedLen + c.encodedLen
    ensures TotalLen([a, b, c]) == a.encodedLen + b.encodedLen + c.encodedLen
  {
    assert [a][..0] == [] && [b][..0] == [] && [a, b][..1] == [a] && [b, c][..1] == [b] && [a, b, c][..2] == [a, b];
  }

  class Storage {
    var firstIndex: nat
    var lastIndex: nat
    var cache: EntryCache
    var lastTruncated: Option<EntryId>
    var hardState: HardState
    const engine: Engine

    constructor (engine: Engine, firstIndex: nat, lastIndex: nat, cache: EntryCache,
                 lastTruncated: Option<EntryId>, hardState: HardState)
      ensures this.engine == engine && this.cache == cache
      ensures this.firstIndex == firstIndex && this.lastIndex == lastIndex
      ensures this.lastTruncated == lastTruncated && this.hardState == hardState
    {
      this.engine, this.firstIndex, this.lastIndex := engine, firstIndex, lastIndex;
      this.cache, this.lastTruncated, this.hardState := cache, lastTruncated, hardState;
    }

    function Truncated(): EntryId
      reads this
    {
      if lastTruncated.Some? then lastTruncated.value else EntryId(0, 0)
    }

    /** The storage and an engine state together hold one log. */
    ghost predicate Holds(e: State)
      reads this, cache
    {
      && e.Wf()
      && var log := Log(Truncated(), e.entries);
      && log.Wf() && firstIndex == log.First() && lastIndex == log.Last()
      && CacheAgrees(cache.entries, log)
    }

    ghost predicate Valid()
      reads this, cache, engine
    {
      Holds(engine.state)
    }

    ghost function ViewLog(): Log
      reads this, engine
    {
      Log(Truncated(), engine.state.entries)
    }

    /** `Storage::entries`: the caller asks for a range of the log (`check_range` panics
        otherwise); below the truncation point the answer is Compacted. */
    method Entries(low: nat, high: nat, maxSize: nat) returns (r: Read<seq<Entry>>)
      requires Valid()
      requires low <= high <= lastIndex + 1
      ensures low <= Truncated().index <==> r == Compacted
      ensures low > Truncated().index ==> r.Ok? && (low == high ==> r.value == [])
      ensures Truncated().index < low < high ==> GoodRead(ViewLog().Slice(low, high), maxSize, r.value)
      ensures Truncated().index < low < high ==>
                ReadInParts(ViewLog().Slice(low, high), CacheStart(low, high) - low, maxSize, r.value)
    {
      hide LongestFit, ReadInParts, TotalLen, DataLen, Contiguous, CacheAgrees, LenBounded, GoodRead;
      if low <= Truncated().index {
        return Compacted;
      }
      if low == high {
        return Ok([]);
      }
      var es: seq<Entry> := [];
      var inEngine := cache.entries == [] || cache.entries[0].index > low;
      if inEngine {
        var end := if cache.entries != [] && cache.entries[0].index < high then cache.entries[0].index else high;
        es := FetchFromEngine(low, end, maxSize);
        if |es| < end - low || end == high {
          ReadsHead(ViewLog(), low, end, high, maxSize, es);
          ReadIsPrefix(ViewLog().Slice(low, high), end - low, maxSize, es);
          return Ok(es);
        }
      }
      var begin := if inEngine then cache.entries[0].index else low;
      var fetched := SumDataLen(es);
      var more := FetchFromCache(begin, high, if fetched <= maxSize then maxSize - fetched else 0);
      ReadsBoth(ViewLog(), low, begin, high, maxSize, es, more);
      ReadIsPrefix(ViewLog().Slice(low, high), begin - low, maxSize, es + more);
      r := Ok(es + more);
    }

    /** Where the part of a range that is in the cache starts. */
    function CacheStart(low: nat, high: nat): nat
      requires low <= high
      reads this, cache
    {
      if cache.entries == [] || cache.entries[0].index > high then high
      else if cache.entries[0].index < low then low else cache.entries[0].index
    }

    method FetchFromEngine(low: nat, end: nat, maxSize: nat) returns (es: seq<Entry>)
      requires Valid()
      requires firstIndex <= low < end <= lastIndex + 1
      ensures LongestFit(ViewLog().Slice(low, end), maxSize, es) && |es| <= end - low
    {
      es := engine.FetchEntriesTo(low, end, Some(maxSize));
    }

    method FetchFromCache(begin: nat, end: nat, maxSize: nat) returns (es: seq<Entry>)
      requires Valid() && cache.entries != []
      requires cache.entries[0].index <= begin < end <= lastIndex + 1 && firstIndex <= begin
      ensures LongestFit(ViewLog().Slice(begin, end), maxSize, es)
    {
      es := cache.FetchEntriesTo(begin, end, maxSize);
      CacheSlice(cache.entries, ViewLog(), begin, end);
    }

    method SumDataLen(es: seq<Entry>) returns (n: nat)
      ensures n == DataLen(es)
    {
      n := 0;
      var i := 0;
      while i < |es|
        invariant 0 <= i <= |es|
        invariant n == DataLen(es[..i])
      {
        assert es[..i + 1][..i] == es[..i];
        n := n + es[i].dataLen;
        i := i + 1;
      }
      assert es[..i] == es;
    }

    lemma CacheSlice(cached: seq<Entry>, log: Log, begin: nat, end: nat)
      requires log.Wf() && CacheAgrees(cached, log) && cached != []
      requires cached[0].index <= begin <= end <= log.Last() + 1 && log.First() <= begin
      ensures cached[begin - cached[0].index..end - cached[0].index] == log.Slice(begin, end)
    {
    }

    /** `Storage::term`: agrees with the log from the truncation point to the last index. */
    method Term(index: nat) returns (r: Read<nat>)
      requires Valid()
      requires index <= lastIndex
      ensures r == if index < Truncated().index then Compacted else Ok(ViewLog().TermAt(index))
    {
      if index == Truncated().index {
        return Ok(Truncated().term);
      }
      if index < Truncated().index {
        return Compacted;
      }
      if cache.entries == [] || index < cache.entries[0].index {
        return Ok(engine.state.entries[index - engine.state.entries[0].index].term);
      }
      assert cache.entries[index - cache.entries[0].index].index == index;
      return Ok(cache.entries[index - cache.entries[0].index].term);
    }

    /** `Storage::write`: updates the fields and builds the batch that makes the engine follow. */
    method Write(task: WriteTask) returns (batch: seq<Command>, ghost after: State)
      requires Valid()
      requires task.snapshot.Some? ==> task.entries == []
      requires task.entries != [] ==>
                 && Truncated().index < task.entries[0].index <= lastIndex + 1
                 && Contiguous(task.entries, task.entries[0].index)
      modifies this, cache
      ensures engine.state.AcceptsAll(batch) && after == engine.state.DoAll(batch)
      ensures if task.snapshot.Some? then fresh(cache) else cache == old(cache)
      ensures lastTruncated == if task.snapshot.Some? then task.snapshot else old(lastTruncated)
      ensures Holds(after)
      ensures Log(Truncated(), after.entries)
              == if task.snapshot.Some? then Log(task.snapshot.value, []) else old(ViewLog()).Append(task.entries)
      ensures hardState == var hs := if task.hardState.Some? then task.hardState.value else old(hardState);
                           if task.snapshot.Some? then hs.(commit := task.snapshot.value.index) else hs
      ensures after.hardSlot == if task.snapshot.Some? || task.hardState.Some? then Some(HardMessage(hardState))
                                else engine.state.hardSlot
      ensures after.localSlot == if task.snapshot.Some? then Some(LocalMessage(lastTruncated))
                                 else engine.state.localSlot
      ensures cache.entries == if task.snapshot.Some? then [] else old(CacheAppend(cache.entries, task.entries))
    {
      hide CacheAgrees, Contiguous, CacheAppend, State.DoAll, State.AcceptsAll, State.Accepts;
      batch, after := PutHardState(task.hardState);
      if task.snapshot.Some? {
        batch, after := ResetTo(task.snapshot.value, batch, after);
        EmptyAgrees(Log(task.snapshot.value, []));
      } else if task.entries != [] {
        batch, after := AppendEntries(task.entries, batch, after);
      } else {
        NothingAppended(cache.entries);
      }
    }

    /** The hard state of a write task, at the start of its batch. */
    method PutHardState(hs: Option<HardState>) returns (batch: seq<Command>, ghost after: State)
      requires engine.state.Wf()
      modifies this`hardState
      ensures engine.state.AcceptsAll(batch) && after == engine.state.DoAll(batch)
      ensures hardState == if hs.Some? then hs.value else old(hardState)
      ensures after == if hs.Some? then engine.state.(hardSlot := Some(HardMessage(hardState))) else engine.state
    {
      hide Contiguous, State.DoAll, State.AcceptsAll;
      EmptyBatch(engine.state);
      batch, after := [], engine.state;
      if hs.Some? {
        batch, after := AddTo(batch, after, Put(HardStateKey, HardMessage(hs.value)));
        hardState := hs.value;
      }
    }

    /** A snapshot replaces the whole log. */
    method ResetTo(id: EntryId, batch: seq<Command>, ghost reached: State)
      returns (batch': seq<Command>, ghost after: State)
      requires engine.state.Wf() && engine.state.AcceptsAll(batch) && reached == engine.state.DoAll(batch)
      modifies this
      ensures engine.state.AcceptsAll(batch') && after == engine.state.DoAll(batch')
      ensures fresh(cache) && cache.entries == []
      ensures firstIndex == id.index + 1 && lastIndex == id.index && lastTruncated == Some(id)
      ensures hardState == old(hardState).(commit := id.index)
      ensures after == State([], Some(HardMessage(hardState)), Some(LocalMessage(Some(id))))
    {
      hide Contiguous, State.DoAll, State.AcceptsAll;
      batch', after := AddTo(batch, reached, Clean);
      batch', after := AddTo(batch', after, Put(LocalStateKey, LocalMessage(Some(id))));
      hardState := hardState.(commit := id.index);
      batch', after := AddTo(batch', after, Put(HardStateKey, HardMessage(hardState)));
      cache := new EntryCache([]);
      firstIndex, lastIndex := id.index + 1, id.index;
      lastTruncated := Some(id);
    }

    /** New entries replace everything from their first index on, in the batch and in the cache. */
    method AppendEntries(es: seq<Entry>, batch: seq<Command>, ghost reached: State)
      returns (batch': seq<Command>, ghost after: State)
      requires engine.state.Wf() && engine.state.AcceptsAll(batch) && reached == engine.state.DoAll(batch)
      requires Holds(reached) && es != [] && Contiguous(es, es[0].index)
      requires Truncated().index < es[0].index <= lastIndex + 1
      modifies this`lastIndex, cache
      ensures engine.state.AcceptsAll(batch') && after == engine.state.DoAll(batch')
      ensures after == reached.(entries := Log(Truncated(), reached.entries).Append(es).entries)
      ensures Holds(after) && cache.entries == old(CacheAppend(cache.entries, es))
    {
      hide CacheAgrees, Contiguous, CacheAppend, State.DoAll, State.AcceptsAll, State.Accepts;
      ghost var log := Log(Truncated(), reached.entries);
      AppendAgrees(cache.entries, log, es);
      EngineFollows(reached, log, es);
      batch', after := AddTo(batch, reached, AddEntries(es));
      CacheReaches(cache.entries, log);
      cache.Append(es);
      lastIndex := es[|es| - 1].index;
    }

    /** One more command in a batch, and the engine state the batch leads to. */
    method AddTo(batch: seq<Command>, ghost reached: State, c: Command)
      returns (batch': seq<Command>, ghost reached': State)
      requires engine.state.Wf() && engine.state.AcceptsAll(batch) && reached == engine.state.DoAll(batch)
      requires reached.Accepts(c)
      ensures batch' == batch + [c] && engine.state.AcceptsAll(batch')
      ensures reached' == engine.state.DoAll(batch') == reached.Do(c) && reached'.Wf()
    {
      AddCommand(engine.state, batch, c);
      batch', reached' := batch + [c], reached.Do(c);
    }

    lemma NothingAppended(cached: seq<Entry>)
      ensures CacheAppend(cached, []) == cached
    {
    }

    lemma EmptyAgrees(log: Log)
      requires log.entries == []
      ensures log.Wf() && CacheAgrees([], log)
    {
    }

    lemma CacheReaches(cached: seq<Entry>, log: Log)
      requires CacheAgrees(cached, log)
      ensures cached != [] ==> Contiguous(cached, cached[0].index) && cached[0].index + |cached| == log.Last() + 1
    {
    }

    /** The engine truncates and extends its entries just as the log does. */
    lemma EngineFollows(s: State, log: Log, es: seq<Entry>)
      requires s.Wf() && s.entries == log.entries && log.Wf()
      requires es != [] && Contiguous(es, es[0].index) && log.First() <= es[0].index <= log.Last() + 1
      ensures s.Accepts(AddEntries(es)) && s.Do(AddEntries(es)) == s.(entries := log.Append(es).entries)
    {
    }

    /** `Storage::compact_to`. When the new first index passes the commit index, the hard state
        is written under the key of the local state, and overwrites it. */
    method CompactTo(to: nat) returns (batch: seq<Command>, ghost after: State)
      requires Valid()
      requires firstIndex < to <= lastIndex + 1
      modifies this
      ensures cache == old(cache)
      ensures engine.state.AcceptsAll(batch) && after == engine.state.DoAll(batch)
      ensures Holds(after)
      ensures Log(Truncated(), after.entries) == old(ViewLog()).Compact(to)
      ensures hardState == if to > old(hardState).commit then old(hardState).(commit := to) else old(hardState)
      ensures after.hardSlot == engine.state.hardSlot
      ensures after.localSlot == Some(if to > old(hardState).commit then HardMessage(hardState)
                                      else LocalMessage(lastTruncated))
    {
      hide CacheAgrees, Contiguous, State.DoAll, State.AcceptsAll, DropBelow;
      ghost var log := ViewLog();
      CompactAgrees(cache.entries, log, to);
      var term := Term(to - 1);
      firstIndex := to;
      var local := Some(EntryId(to - 1, term.value));
      EmptyBatch(engine.state);
      batch, after := [], engine.state;
      batch, after := AddTo(batch, after, Command.Compact(to));
      batch, after := AddTo(batch, after, Put(LocalStateKey, LocalMessage(local)));
      if firstIndex > hardState.commit {
        hardState := hardState.(commit := firstIndex);
        batch, after := AddTo(batch, after, Put(LocalStateKey, HardMessage(hardState)));
      }
      lastTruncated := local;
    }
  }
}
