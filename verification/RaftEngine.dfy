/** The durable Raft log engine, reduced to one replica: a sequence of consecutive entries and
    two message slots, changed by atomic batches. */
module RaftEngine {
  import opened EntryIds
  import opened Options
  import opened RaftLog

  /** What a slot can hold: the value of either message type, as encoded bytes would. */
  datatype Message = HardMessage(hs: HardState) | LocalMessage(lastTruncated: Option<EntryId>)

  datatype Slot = HardStateKey | LocalStateKey

  datatype Command =
    | Clean
    | Compact(index: nat)
    | AddEntries(entries: seq<Entry>)
    | Put(slot: Slot, message: Message)

  datatype State = State(entries: seq<Entry>, hardSlot: Option<Message>, localSlot: Option<Message>) {
    predicate Wf() { entries != [] ==> Contiguous(entries, entries[0].index) }

    /** Commands a batch may hold when it is written. */
    predicate Accepts(c: Command) {
      c.AddEntries? && c.entries != [] ==>
        && Contiguous(c.entries, c.entries[0].index)
        && (entries != [] ==> entries[0].index <= c.entries[0].index <= entries[|entries| - 1].index + 1)
    }

    function Do(c: Command): (s: State)
      requires Wf() && Accepts(c)
      ensures s.Wf()
    {
      match c
      case Clean => State([], None, None)
      case Compact(index) => this.(entries := DropBelow(entries, index))
      case AddEntries(es) =>
        if es == [] then this
        else if entries == [] then this.(entries := es)
        else this.(entries := entries[..es[0].index - entries[0].index] + es)
      case Put(HardStateKey, m) => this.(hardSlot := Some(m))
      case Put(LocalStateKey, m) => this.(localSlot := Some(m))
    }

    ghost predicate AcceptsAll(batch: seq<Command>)
      requires Wf()
      decreases |batch|
    {
      batch == [] || (Accepts(batch[0]) && Do(batch[0]).AcceptsAll(batch[1..]))
    }

    ghost function DoAll(batch: seq<Command>): (s: State)
      requires Wf() && AcceptsAll(batch)
      ensures s.Wf()
      decreases |batch|
    {
      if batch == [] then this else Do(batch[0]).DoAll(batch[1..])
    }
  }

  function DropBelow(es: seq<Entry>, index: nat): (r: seq<Entry>)
    requires es != [] ==> Contiguous(es, es[0].index)
    ensures r != [] ==> Contiguous(r, r[0].index)
  {
    if es == [] || index <= es[0].index then es
    else if index - es[0].index >= |es| then []
    else es[index - es[0].index..]
  }

  class Engine {
    var state: State

    constructor (state: State)
      ensures this.state == state
    {
      this.state := state;
    }

    /** `Engine::write`: the commands of a batch take effect together, in order. */
    method Write(batch: seq<Command>)
      requires state.Wf() && state.AcceptsAll(batch)
      modifies this
      ensures state == old(state.DoAll(batch))
    {
      var i := 0;
      while i < |batch|
        invariant 0 <= i <= |batch|
        invariant state.Wf() && state.AcceptsAll(batch[i..])
        invariant state.DoAll(batch[i..]) == old(state.DoAll(batch))
      {
        assert batch[i..][0] == batch[i] && batch[i..][1..] == batch[i + 1..];
        state := state.Do(batch[i]);
        i := i + 1;
      }
    }

    /** `Engine::fetch_entries_to`: at least one entry, more while they fit in `maxSize`, and no others. */
    method FetchEntriesTo(low: nat, high: nat, maxSize: Option<nat>) returns (es: seq<Entry>)
      requires state.entries != [] && Contiguous(state.entries, state.entries[0].index)
      requires state.entries[0].index <= low < high <= state.entries[0].index + |state.entries|
      ensures var all := state.entries[low - state.entries[0].index..high - state.entries[0].index];
              if maxSize.None? then es == all else LongestFit(all, maxSize.value, es)
    {
      var from := low - state.entries[0].index;
      var all := state.entries[from..from + (high - low)];
      var n, total := 1, all[0].encodedLen;
      TotalLenStep(all, 0);
      while n < |all| && (maxSize.None? || total + all[n].encodedLen <= maxSize.value)
        invariant 1 <= n <= |all|
        invariant total == TotalLen(all[..n]) && (n == 1 || maxSize.None? || total <= maxSize.value)
      {
        TotalLenStep(all, n);
        total := total + all[n].encodedLen;
        n := n + 1;
      }
      if n < |all| {
        TotalLenStep(all, n);
      } else {
        assert all[..n] == all;
      }
      es := all[..n];
    }
  }

  /** `es` is the longest beginning of `all` that fits in `maxSize`, or its first entry if that does not fit. */
  predicate LongestFit(all: seq<Entry>, maxSize: nat, es: seq<Entry>) {
    && es != [] && es <= all
    && (|es| > 1 ==> TotalLen(es) <= maxSize)
    && (|es| < |all| ==> TotalLen(all[..|es| + 1]) > maxSize)
  }

  /** There is only one, and it is everything exactly if everything fits or there is only one entry. */
  lemma LongestFitUnique(all: seq<Entry>, maxSize: nat, es: seq<Entry>, es': seq<Entry>)
    requires LongestFit(all, maxSize, es) && LongestFit(all, maxSize, es')
    ensures es == es'
    ensures es == all <==> |all| == 1 || TotalLen(all) <= maxSize
  {
    assert all[..|all|] == all && all[..|es|] == es && all[..|es'|] == es';
    LongestFitAtLeast(all, maxSize, es, |es'|);
    LongestFitAtLeast(all, maxSize, es', |es|);
    if |all| == 1 || TotalLen(all[..|all|]) <= maxSize { LongestFitAtLeast(all, maxSize, es, |all|); }
  }

  lemma LongestFitAtLeast(all: seq<Entry>, maxSize: nat, es: seq<Entry>, n: nat)
    requires LongestFit(all, maxSize, es) && 1 <= n <= |all| && (n == 1 || TotalLen(all[..n]) <= maxSize)
    ensures n <= |es|
  {
    if |es| < n {
      assert all[..n][..|es| + 1] == all[..|es| + 1];
      TotalLenMonotone(all[..n], |es| + 1);
    }
  }

  lemma TotalLenStep(es: seq<Entry>, n: nat)
    requires n < |es|
    ensures TotalLen(es[..n + 1]) == TotalLen(es[..n]) + es[n].encodedLen
  {
    assert es[..n + 1][..n] == es[..n];
  }

  lemma {:induction false} TotalLenMonotone(es: seq<Entry>, n: nat)
    requires n <= |es|
    ensures TotalLen(es[..n]) <= TotalLen(es)
    decreases |es|
  {
    if n < |es| {
      var init := es[..|es| - 1];
      TotalLenMonotone(init, n);
      assert init[..n] == es[..n];
    } else {
      assert es[..n] == es;
    }
  }

  lemma {:induction false} TotalLenConcat(a: seq<Entry>, b: seq<Entry>)
    ensures TotalLen(a + b) == TotalLen(a) + TotalLen(b)
    decreases |b|
  {
    if b == [] {
      assert a + b == a;
    } else {
      assert (a + b)[..|a + b| - 1] == a + b[..|b| - 1];
      TotalLenConcat(a, b[..|b| - 1]);
    }
  }
}
