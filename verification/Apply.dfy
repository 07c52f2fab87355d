/** The applier of a Raft group (raftgroup/applier.rs) and the read requests of its node
    (raftgroup/node.rs): who is waiting for which log position, and who has been answered. */
module Apply {
  import opened EntryIds
  import opened Options

  /** `ProposalContext`; `sender` stands for the channel of the waiting client. */
  datatype Proposal = Proposal(index: nat, term: nat, sender: nat)

  datatype Answer = Answer(proposal: Proposal, ok: bool)

  // ---------------------------------------------------------------- the proposal queue

  /** `delegate_proposal_context`: at most one stale context gives way to the new one. */
  function Displaced(queue: seq<Proposal>, p: Proposal): seq<Answer> {
    if queue != [] && queue[|queue| - 1].index >= p.index then [Answer(queue[|queue| - 1], false)] else []
  }

  function Queued(queue: seq<Proposal>, p: Proposal): seq<Proposal> {
    (if queue != [] && queue[|queue| - 1].index >= p.index then queue[..|queue| - 1] else queue) + [p]
  }

  /** `response_proposal` for entries applied in order: what is left of the queue ... */
  function Remaining(queue: seq<Proposal>, ids: seq<EntryId>): seq<Proposal>
    decreases |ids|
  {
    if ids == [] then queue
    else if queue != [] && queue[0].index == ids[0].index then Remaining(queue[1..], ids[1..])
    else Remaining(queue, ids[1..])
  }

  /** ... and the answers that were sent. */
  function Responses(queue: seq<Proposal>, ids: seq<EntryId>): seq<Answer>
    decreases |ids|
  {
    if ids == [] then []
    else if queue != [] && queue[0].index == ids[0].index then
      [Answer(queue[0], queue[0].term == ids[0].term)] + Responses(queue[1..], ids[1..])
    else Responses(queue, ids[1..])
  }

  function Waiting(queue: seq<Proposal>): multiset<Proposal> { multiset(queue) }

  function Answered(answers: seq<Answer>): multiset<Proposal>
    decreases |answers|
  {
    if answers == [] then multiset{}
    else Answered(answers[..|answers| - 1]) + multiset{answers[|answers| - 1].proposal}
  }

  lemma {:induction false} AnsweredConcat(a: seq<Answer>, b: seq<Answer>)
    ensures Answered(a + b) == Answered(a) + Answered(b)
    decreases |b|
  {
    if b == [] {
      assert a + b == a;
    } else {
      assert (a + b)[..|a + b| - 1] == a + b[..|b| - 1];
      AnsweredConcat(a, b[..|b| - 1]);
    }
  }

  /** Delegating loses nobody: the new proposal is queued, the displaced one is answered. */
  lemma DelegateConserves(queue: seq<Proposal>, p: Proposal)
    ensures Waiting(Queued(queue, p)) + Answered(Displaced(queue, p)) == Waiting(queue) + multiset{p}
  {
    if queue != [] {
      var init, last := queue[..|queue| - 1], queue[|queue| - 1];
      assert queue == init + [last];
      assert Answered([Answer(last, false)]) == Answered([Answer(last, false)][..0]) + multiset{last};
    }
  }

  lemma HeadMoves(queue: seq<Proposal>, ok: bool, left: multiset<Proposal>, sent: multiset<Proposal>)
    requires queue != [] && left + sent == Waiting(queue[1..])
    ensures left + (Answered([Answer(queue[0], ok)]) + sent) == Waiting(queue)
  {
    assert queue == [queue[0]] + queue[1..];
    assert Answered([Answer(queue[0], ok)]) == Answered([Answer(queue[0], ok)][..0]) + multiset{queue[0]};
  }

  /** Responding moves proposals from the queue to the answered ones, each once. */
  lemma {:induction false} RespondConserves(queue: seq<Proposal>, ids: seq<EntryId>)
    ensures Waiting(Remaining(queue, ids)) + Answered(Responses(queue, ids)) == Waiting(queue)
    decreases |ids|
  {
    if ids == [] {
      assert Answered([]) == multiset{};
    } else {
      hide Waiting, Answered;
      if queue != [] && queue[0].index == ids[0].index {
        RespondConserves(queue[1..], ids[1..]);
        var ok, rest := queue[0].term == ids[0].term, Responses(queue[1..], ids[1..]);
        AnsweredConcat([Answer(queue[0], ok)], rest);
        HeadMoves(queue, ok, Waiting(Remaining(queue[1..], ids[1..])), Answered(rest));
      } else {
        RespondConserves(queue, ids[1..]);
      }
    }
  }

  /** An Ok means that exactly this entry was applied; an error, that another entry took its index. */
  lemma {:induction false} ResponsesTrue(queue: seq<Proposal>, ids: seq<EntryId>, i: nat)
    requires i < |Responses(queue, ids)|
    ensures var a := Responses(queue, ids)[i];
            && (a.ok ==> EntryId(a.proposal.index, a.proposal.term) in ids)
            && (!a.ok ==> exists id :: id in ids && id.index == a.proposal.index && id.term != a.proposal.term)
    decreases |ids|
  {
    if ids != [] {
      assert ids[0] in ids;
      if queue != [] && queue[0].index == ids[0].index {
        if i > 0 { ResponsesTrue(queue[1..], ids[1..], i - 1); }
      } else {
        ResponsesTrue(queue, ids[1..], i);
      }
      assert forall id :: id in ids[1..] ==> id in ids;
    }
  }

  predicate Increasing(queue: seq<Proposal>) {
    forall i, j :: 0 <= i < j < |queue| ==> queue[i].index < queue[j].index
  }

  predicate Consecutive(ids: seq<EntryId>) {
    forall i :: 0 <= i < |ids| ==> ids[i].index == ids[0].index + i
  }

  /** Answers go to the front of the queue, in order; the rest stays. */
  lemma {:induction false} ResponsesArePrefix(queue: seq<Proposal>, ids: seq<EntryId>)
    ensures var n := |Responses(queue, ids)|;
            && n <= |queue| && Remaining(queue, ids) == queue[n..]
            && forall i :: 0 <= i < n ==> Responses(queue, ids)[i].proposal == queue[i]
    decreases |ids|
  {
    if ids != [] {
      if queue != [] && queue[0].index == ids[0].index {
        ResponsesArePrefix(queue[1..], ids[1..]);
      } else {
        ResponsesArePrefix(queue, ids[1..]);
      }
    }
  }

  lemma OrderedQueueDrains(queue: seq<Proposal>, ids: seq<EntryId>, i: nat)
    requires Increasing(queue) && Consecutive(ids) && ids != [] && i < |queue|
    requires ids[0].index <= queue[0].index
    ensures i < |Responses(queue, ids)| <==> queue[i].index <= ids[|ids| - 1].index
  {
    AnsweredIff(queue, ids, i);
  }

  /** In a queue kept in order, applying consecutive entries answers everybody at or below the
      last of them, with Ok exactly for those whose own entry was the one applied. */
  lemma {:induction false} OrderedQueueAnswered(queue: seq<Proposal>, ids: seq<EntryId>, i: nat)
    requires Increasing(queue) && Consecutive(ids) && ids != [] && i < |queue|
    requires ids[0].index <= queue[0].index
    ensures queue[i].index > ids[|ids| - 1].index ==> queue[i] in Remaining(queue, ids)
    ensures queue[i].index <= ids[|ids| - 1].index ==>
              && i < |Responses(queue, ids)|
              && Responses(queue, ids)[i] == Answer(queue[i], EntryId(queue[i].index, queue[i].term) in ids)
  {
    OrderedQueueDrains(queue, ids, i);
    ResponsesArePrefix(queue, ids);
    var n := |Responses(queue, ids)|;
    if i < n {
      ResponsesTrue(queue, ids, i);
    } else {
      assert queue[n..][i - n] == queue[i];
    }
  }

  /** Whatever the queue, applying consecutive entries answers a proposal exactly when they start at or
      below the head, they reach its index, and the queue is in order up to it. */
  lemma {:induction false} AnsweredIff(queue: seq<Proposal>, ids: seq<EntryId>, i: nat)
    requires Consecutive(ids) && ids != [] && i < |queue|
    ensures i < |Responses(queue, ids)| <==>
            ids[0].index <= queue[0].index && queue[i].index <= ids[|ids| - 1].index && Increasing(queue[..i + 1])
    decreases |ids|
  {
    var rest := ids[1..];
    if queue[0].index == ids[0].index {
      if i > 0 {
        IncreasingFrom(queue, i);
        if rest != [] { AnsweredIff(queue[1..], rest, i - 1); }
      }
    } else if rest != [] {
      AnsweredIff(queue, rest, i);
    } else if Increasing(queue[..i + 1]) && i > 0 {
      assert queue[..i + 1][0] == queue[0] && queue[..i + 1][i] == queue[i];
    }
  }

  /** A queue is in order up to a position if its head comes first and the rest is in order. */
  lemma IncreasingFrom(queue: seq<Proposal>, i: nat)
    requires 0 < i < |queue|
    ensures Increasing(queue[..i + 1]) <==> queue[0].index < queue[1].index && Increasing(queue[1..][..i])
    ensures Increasing(queue[..i + 1]) ==> queue[0].index < queue[i].index
  {
    var q, t := queue[..i + 1], queue[1..][..i];
    assert forall k :: 0 <= k < i ==> t[k] == q[k + 1];
    if Increasing(q) {
      assert q[0].index < q[1].index && q[0].index < q[i].index;
      forall j, k | 0 <= j < k < |t| ensures t[j].index < t[k].index { assert q[j + 1].index < q[k + 1].index; }
    }
    if queue[0].index < queue[1].index && Increasing(t) {
      forall j, k | 0 <= j < k < |q| ensures q[j].index < q[k].index {
        assert q[k] == t[k - 1];
        if j == 0 { assert t[0].index <= t[k - 1].index; } else { assert q[j] == t[j - 1]; }
      }
    }
  }

  /** A queue whose indexes have all been applied is empty exactly if it was in order; otherwise some
      applied proposal is never answered. */
  lemma QueueDrainsIff(queue: seq<Proposal>, ids: seq<EntryId>)
    requires Consecutive(ids) && ids != [] && queue != [] && ids[0].index <= queue[0].index
    requires forall i :: 0 <= i < |queue| ==> queue[i].index <= ids[|ids| - 1].index
    ensures Remaining(queue, ids) == [] <==> Increasing(queue)
  {
    ResponsesArePrefix(queue, ids);
    AnsweredIff(queue, ids, |queue| - 1);
    assert queue[..|queue|] == queue;
  }

  /** Delegation keeps the queue in order exactly when at most one queued index is not below the
      new one. */
  lemma DelegateKeepsOrder(queue: seq<Proposal>, p: Proposal)
    requires Increasing(queue)
    ensures Increasing(Queued(queue, p)) <==> (|queue| < 2 || queue[|queue| - 2].index < p.index)
  {
    var q := Queued(queue, p);
    if !(|queue| < 2 || queue[|queue| - 2].index < p.index) {
      assert q[|q| - 2].index >= q[|q| - 1].index;
    } else {
      forall i, j | 0 <= i < j < |q| ensures q[i].index < q[j].index {
        if j == |q| - 1 && i < |queue| - 2 { assert queue[i].index < queue[|queue| - 2].index; }
      }
    }
  }

  /** Otherwise a proposal can be applied and never answered: a leader of term 1 loses its entries
      from index 5 on to a leader of term 2, and leads again in term 3, while two of its older
      contexts are still queued above the index. */
  lemma DisorderStarvesProposal()
    ensures var queue := Queued([Proposal(5, 1, 10), Proposal(6, 1, 11), Proposal(7, 1, 12)], Proposal(5, 3, 13));
            var ids := [EntryId(5, 3), EntryId(6, 3), EntryId(7, 3)];
            Remaining(queue, ids) == [Proposal(5, 3, 13)]
  {
  }

  // ---------------------------------------------------------------- the applier

  datatype ReadState = ReadState(index: nat, ctx: nat)

  function Unsatisfied(states: seq<ReadState>, applied: nat): (kept: seq<ReadState>)
    ensures forall i :: 0 <= i < |kept| ==> kept[i] in states && kept[i].index > applied
    ensures forall rs :: rs in states && rs.index > applied ==> rs in kept
  {
    if states == [] then []
    else (if states[0].index > applied then [states[0]] else []) + Unsatisfied(states[1..], applied)
  }

  /** The contexts of the read states that are applied. */
  ghost function Released(states: seq<ReadState>, applied: nat): set<nat> {
    set i | 0 <= i < |states| && states[i].index <= applied :: states[i].ctx
  }

  /** The readers waiting under some contexts. */
  ghost function Readers(requests: map<nat, seq<nat>>, contexts: set<nat>): set<nat> {
    set c, s | c in contexts && c in requests && s in requests[c] :: s
  }

  /** The bookkeeping after the readers of some contexts, and nobody else, have been answered. */
  ghost predicate AnsweredExactly(before: Reads, after: Reads, contexts: set<nat>) {
    && after.requests == before.requests - contexts
    && (forall s :: s in after.oks <==> s in before.oks || s in Readers(before.requests, contexts))
  }

  lemma AnsweredOneMore(a: Reads, b: Reads, contexts: set<nat>, ctx: nat)
    requires AnsweredExactly(a, b, contexts)
    ensures ctx in b.requests ==>
              AnsweredExactly(a, b.(requests := b.requests - {ctx}, oks := b.oks + b.requests[ctx]), contexts + {ctx})
    ensures ctx !in b.requests ==> AnsweredExactly(a, b, contexts + {ctx})
  {
    if ctx in b.requests {
      var c := b.(requests := b.requests - {ctx}, oks := b.oks + b.requests[ctx]);
      assert c.requests == a.requests - (contexts + {ctx});
      assert Readers(a.requests, contexts + {ctx}) == Readers(a.requests, contexts) + (set s | s in a.requests[ctx]);
    } else {
      assert a.requests - (contexts + {ctx}) == a.requests - contexts;
      assert Readers(a.requests, contexts + {ctx}) == Readers(a.requests, contexts);
    }
  }

  lemma AnsweredTwice(a: Reads, b: Reads, c: Reads, first: set<nat>, second: set<nat>)
    requires AnsweredExactly(a, b, first) && AnsweredExactly(b, c, second)
    ensures AnsweredExactly(a, c, first + second)
  {
    var all, one, two := Readers(a.requests, first + second), Readers(a.requests, first), Readers(b.requests, second);
    forall s | s in all ensures s in one || s in two {
      var c :| c in first + second && c in a.requests && s in a.requests[c];
      if c !in first { assert c in b.requests && b.requests[c] == a.requests[c]; }
    }
    forall s | s in two ensures s in all {
      var c :| c in second && c in b.requests && s in b.requests[c];
      assert c in a.requests && a.requests[c] == b.requests[c];
    }
    forall s | s in one ensures s in all {
      var c :| c in first && c in a.requests && s in a.requests[c];
      assert c in first + second;
    }
  }

  lemma NobodyAnswered(r: Reads, states: seq<ReadState>, applied: nat)
    requires states == []
    ensures AnsweredExactly(r, r, Released(states, applied))
  {
  }

  lemma ReleasedNext(states: seq<ReadState>, i: nat, applied: nat)
    requires i < |states|
    ensures Released(states[..i + 1], applied) ==
            if states[i].index <= applied then Released(states[..i], applied) + {states[i].ctx}
            else Released(states[..i], applied)
  {
    var next, now := states[..i + 1], states[..i];
    forall c | c in Released(now, applied) ensures c in Released(next, applied) {
      var k :| 0 <= k < i && now[k].index <= applied && now[k].ctx == c;
      assert next[k] == now[k];
    }
    assert next[i] == states[i];
  }

  lemma ReleasedConcat(a: seq<ReadState>, b: seq<ReadState>, applied: nat)
    ensures Released(a + b, applied) == Released(a, applied) + Released(b, applied)
  {
    forall c | c in Released(b, applied) ensures c in Released(a + b, applied) {
      var k :| 0 <= k < |b| && b[k].index <= applied && b[k].ctx == c;
      assert (a + b)[|a| + k] == b[k];
    }
    forall c | c in Released(a, applied) ensures c in Released(a + b, applied) {
      var k :| 0 <= k < |a| && a[k].index <= applied && a[k].ctx == c;
      assert (a + b)[k] == a[k];
    }
  }

  /** What is released in two goes is what is released at once. */
  lemma ReleasedLater(states: seq<ReadState>, applied: nat, later: nat)
    requires applied <= later
    ensures Released(states, later) == Released(states, applied) + Released(Unsatisfied(states, applied), later)
  {
    var kept := Unsatisfied(states, applied);
    forall c | c in Released(kept, later) ensures c in Released(states, later) {
      var k :| 0 <= k < |kept| && kept[k].index <= later && kept[k].ctx == c;
      var i :| 0 <= i < |states| && states[i] == kept[k];
    }
    forall c | c in Released(states, later) ensures c in Released(states, applied) + Released(kept, later) {
      var i :| 0 <= i < |states| && states[i].index <= later && states[i].ctx == c;
      if states[i].index > applied {
        assert states[i] in states;
        var k :| 0 <= k < |kept| && kept[k] == states[i];
      }
    }
  }

  predicate Distinct(s: seq<nat>) {
    forall i, j :: 0 <= i < j < |s| ==> s[i] != s[j]
  }

  /** The applied indexes are consecutive from the first one on. */
  ghost predicate History(ids: seq<EntryId>, last: nat) {
    ids != [] ==> Consecutive(ids) && ids[0].index > 0 && ids[|ids| - 1].index == last
  }

  /** The read bookkeeping. `owner` maps every reader ever delegated to its context, and
      `required` every context to the index its readers must see applied. */
  datatype Reads = Reads(next: nat, requests: map<nat, seq<nat>>, oks: seq<nat>, owner: map<nat, nat>,
                         required: map<nat, nat>)

  /** Every reader waits under its context or has been answered once, and not too early. */
  ghost predicate ReadsInv(r: Reads, last: nat) {
    && (forall c: nat :: c in r.required <==> c < r.next)
    && (forall c: nat :: c in r.requests ==> c < r.next && Distinct(r.requests[c]))
    && (forall c: nat, s: nat :: c in r.requests && s in r.requests[c] ==> s in r.owner && r.owner[s] == c)
    && Distinct(r.oks)
    && (forall s: nat :: s in r.oks ==> AnsweredInTime(r, last, s))
    && (forall s: nat :: s in r.owner ==> r.owner[s] < r.next && (s in r.oks || StillWaiting(r, s)))
  }

  ghost predicate AnsweredInTime(r: Reads, last: nat, s: nat) {
    s in r.owner && r.owner[s] in r.required && r.owner[s] !in r.requests && r.required[r.owner[s]] <= last
  }

  ghost predicate StillWaiting(r: Reads, s: nat)
    requires s in r.owner
  {
    r.owner[s] in r.requests && s in r.requests[r.owner[s]]
  }

  ghost function WithOwners(owner: map<nat, nat>, requests: seq<nat>, ctx: nat): map<nat, nat> {
    map s | s in owner.Keys + (set r | r in requests) :: if s in requests then ctx else owner[s]
  }

  /** The bookkeeping with some readers filed under the next context. */
  ghost function Filed(r: Reads, requests: seq<nat>, need: nat): Reads {
    Reads(r.next + 1, r.requests[r.next := requests], r.oks, WithOwners(r.owner, requests, r.next), r.required[r.next := need])
  }

  lemma OwnerAfter(owner: map<nat, nat>, requests: seq<nat>, ctx: nat, s: nat)
    ensures s in WithOwners(owner, requests, ctx) <==> s in owner || s in requests
    ensures s in requests ==> WithOwners(owner, requests, ctx)[s] == ctx
    ensures s in owner && s !in requests ==> WithOwners(owner, requests, ctx)[s] == owner[s]
  {
  }

  lemma FiledAnswered(r: Reads, last: nat, requests: seq<nat>, need: nat, s: nat)
    requires ReadsInv(r, last) && s in r.oks && forall s :: s in requests ==> s !in r.owner
    ensures AnsweredInTime(Filed(r, requests, need), last, s)
  {
    hide Distinct, WithOwners;
    assert AnsweredInTime(r, last, s);
    OwnerAfter(r.owner, requests, r.next, s);
  }

  lemma FiledWaiting(r: Reads, last: nat, requests: seq<nat>, need: nat, s: nat)
    requires ReadsInv(r, last) && (forall s :: s in requests ==> s !in r.owner) && s in Filed(r, requests, need).owner
    ensures var t := Filed(r, requests, need); t.owner[s] < t.next && (s in t.oks || StillWaiting(t, s))
  {
    hide Distinct, WithOwners;
    OwnerAfter(r.owner, requests, r.next, s);
  }

  lemma FiledOwner(r: Reads, last: nat, requests: seq<nat>, need: nat, c: nat, s: nat)
    requires ReadsInv(r, last) && (forall s :: s in requests ==> s !in r.owner)
    requires c in Filed(r, requests, need).requests && s in Filed(r, requests, need).requests[c]
    ensures var t := Filed(r, requests, need); s in t.owner && t.owner[s] == c
  {
    hide Distinct, WithOwners;
    OwnerAfter(r.owner, requests, r.next, s);
  }

  lemma DelegateKeepsReads(r: Reads, last: nat, requests: seq<nat>, need: nat)
    requires ReadsInv(r, last) && Distinct(requests) && forall s :: s in requests ==> s !in r.owner
    ensures ReadsInv(Filed(r, requests, need), last)
  {
    hide Distinct, WithOwners, AnsweredInTime, StillWaiting;
    var t := Filed(r, requests, need);
    forall c: nat, s: nat | c in t.requests && s in t.requests[c] ensures s in t.owner && t.owner[s] == c {
      FiledOwner(r, last, requests, need, c, s);
    }
    forall s: nat | s in t.oks ensures AnsweredInTime(t, last, s) { FiledAnswered(r, last, requests, need, s); }
    forall s: nat | s in t.owner ensures t.owner[s] < t.next && (s in t.oks || StillWaiting(t, s)) {
      FiledWaiting(r, last, requests, need, s);
    }
  }

  lemma SendKeepsReads(r: Reads, last: nat, ctx: nat)
    requires ReadsInv(r, last) && ctx in r.requests && ctx in r.required && r.required[ctx] <= last
    ensures ReadsInv(r.(requests := r.requests - {ctx}, oks := r.oks + r.requests[ctx]), last)
  {
    var asked := r.requests[ctx];
    var t := r.(requests := r.requests - {ctx}, oks := r.oks + asked);
    forall i, j | 0 <= i < j < |t.oks| ensures t.oks[i] != t.oks[j] {
      if i < |r.oks| <= j {
        assert r.oks[i] in r.oks && asked[j - |r.oks|] in asked;
        assert AnsweredInTime(r, last, r.oks[i]);
      }
    }
    forall s: nat | s in t.oks ensures AnsweredInTime(t, last, s) {
      if s in r.oks { assert AnsweredInTime(r, last, s); }
    }
    forall s: nat | s in t.owner ensures t.owner[s] < t.next && (s in t.oks || StillWaiting(t, s)) {
      if s !in r.oks {
        assert StillWaiting(r, s);
        if r.owner[s] == ctx { assert s in asked; }
      }
    }
  }

  lemma LaterKeepsReads(r: Reads, last: nat, later: nat)
    requires ReadsInv(r, last) && last <= later
    ensures ReadsInv(r, later)
  {
  }

  /** Raft's contract for read states: their index covers what their readers need. */
  ghost predicate StatesValid(states: seq<ReadState>, required: map<nat, nat>) {
    forall i :: 0 <= i < |states| ==> states[i].ctx in required && required[states[i].ctx] <= states[i].index
  }

  /** The next context is unused, so giving it a meaning changes no read state. */
  lemma FreshContext(r: Reads, last: nat, states: seq<ReadState>, need: nat)
    requires ReadsInv(r, last)
    ensures r.next !in r.required
    ensures StatesValid(states, r.required) ==> StatesValid(states, r.required[r.next := need])
  {
  }

  lemma KeptStatesValid(states: seq<ReadState>, more: seq<ReadState>, required: map<nat, nat>, last: nat)
    requires StatesValid(states, required) && StatesValid(more, required)
    ensures StatesValid(Unsatisfied(states, last), required)
    ensures StatesValid(more + Unsatisfied(states, last), required)
  {
  }

  class Applier {
    var proposalQueue: seq<Proposal>
    var nextReadStateIndex: nat
    var readRequests: map<nat, seq<nat>>    // request context to the waiting senders
    var readStates: seq<ReadState>          // ready, but waiting for entries to apply
    var lastApplied: nat

    var answers: seq<Answer>                // what was sent to proposers
    var readOks: seq<nat>                   // the readers answered Ok

    ghost var delegated: multiset<Proposal> // every proposal ever delegated
    ghost var ids: seq<EntryId>             // every entry applied since the last snapshot
    ghost var everApplied: set<EntryId>
    ghost var owner: map<nat, nat>
    ghost var required: map<nat, nat>

    ghost function ReadsOf(): Reads
      reads this
    {
      Reads(nextReadStateIndex, readRequests, readOks, owner, required)
    }

    ghost predicate Valid()
      reads this
    {
      && delegated == Waiting(proposalQueue) + Answered(answers)
      && OksJustified(answers, everApplied)
      && History(ids, lastApplied) && (forall id :: id in ids ==> id in everApplied)
      && ReadsInv(ReadsOf(), lastApplied)
      && StatesValid(readStates, required)
    }

    constructor (flushed: nat)
      ensures Valid() && lastApplied == flushed && owner == map[] && required == map[]
      ensures proposalQueue == [] && answers == [] && readStates == [] && nextReadStateIndex == 0
      ensures delegated == multiset{} && ids == [] && readOks == []
    {
      proposalQueue, nextReadStateIndex, readRequests, readStates := [], 0, map[], [];
      lastApplied, answers, readOks := flushed, [], [];
      delegated, ids, everApplied, owner, required := multiset{}, [], {}, map[], map[];
    }

    /** `delegate_proposal_context`. */
    method DelegateProposal(index: nat, term: nat, sender: nat)
      requires Valid()
      modifies this`proposalQueue, this`answers, this`delegated
      ensures Valid()
      ensures proposalQueue == Queued(old(proposalQueue), Proposal(index, term, sender))
      ensures answers == old(answers) + Displaced(old(proposalQueue), Proposal(index, term, sender))
      ensures delegated == old(delegated) + multiset{Proposal(index, term, sender)}
    {
      hide ReadsInv, StatesValid, History, Answered, Waiting, OksJustified;
      var ctx := Proposal(index, term, sender);
      DelegatedOnce(delegated, everApplied, proposalQueue, answers, ctx);
      if proposalQueue != [] {
        var last := proposalQueue[|proposalQueue| - 1];
        if last.index >= ctx.index {
          proposalQueue := proposalQueue[..|proposalQueue| - 1];
          answers := answers + [Answer(last, false)];
        }
      }
      proposalQueue := proposalQueue + [ctx];
      delegated := delegated + multiset{ctx};
      assert answers == old(answers) + Displaced(old(proposalQueue), ctx);
    }

    /** `delegate_read_requests`; `need` is what the readers must see applied. */
    method DelegateReadRequests(requests: seq<nat>, ghost need: nat) returns (ctx: nat)
      requires Valid() && Distinct(requests) && forall s :: s in requests ==> s !in owner
      modifies this`nextReadStateIndex, this`readRequests, this`owner, this`required
      ensures Valid() && ctx == old(nextReadStateIndex) && ctx !in old(required)
      ensures required == old(required)[ctx := need]
      ensures owner == WithOwners(old(owner), requests, ctx)
    {
      hide ReadsInv, History, Answered, Waiting, WithOwners, Distinct, StatesValid, OksJustified;
      DelegateKeepsReads(ReadsOf(), lastApplied, requests, need);
      FreshContext(ReadsOf(), lastApplied, readStates, need);
      ctx := nextReadStateIndex;
      nextReadStateIndex := nextReadStateIndex + 1;
      readRequests := readRequests[ctx := requests];
      required := required[ctx := need];
      owner := WithOwners(owner, requests, ctx);
    }

    /** `response_read_states`: answers the readers of every state that is applied. */
    method ResponseReadStates(states: seq<ReadState>) returns (kept: seq<ReadState>)
      requires ReadsInv(ReadsOf(), lastApplied) && StatesValid(states, required)
      modifies this`readRequests, this`readOks
      ensures ReadsInv(ReadsOf(), lastApplied) && kept == Unsatisfied(states, lastApplied)
      ensures AnsweredExactly(old(ReadsOf()), ReadsOf(), Released(states, lastApplied))
    {
      hide ReadsInv, AnsweredExactly, Released;
      var i := 0;
      NobodyAnswered(ReadsOf(), states[..0], lastApplied);
      while i < |states|
        invariant 0 <= i <= |states|
        invariant ReadsInv(ReadsOf(), lastApplied)
        invariant AnsweredExactly(old(ReadsOf()), ReadsOf(), Released(states[..i], lastApplied))
      {
        var ctx := states[i].ctx;
        ReleasedNext(states, i, lastApplied);
        AnsweredOneMore(old(ReadsOf()), ReadsOf(), Released(states[..i], lastApplied), ctx);
        if states[i].index <= lastApplied && ctx in readRequests {
          SendKeepsReads(ReadsOf(), lastApplied, ctx);
          readOks := readOks + readRequests[ctx];
          readRequests := readRequests - {ctx};
        }
        i := i + 1;
      }
      assert states[..|states|] == states;
      kept := Unsatisfied(states, lastApplied);
    }

    /** `apply_read_states`. */
    method ApplyReadStates(states: seq<ReadState>)
      requires Valid() && StatesValid(states, required)
      modifies this`readRequests, this`readOks, this`readStates
      ensures Valid()
      ensures readStates == old(readStates) + Unsatisfied(states, lastApplied)
      ensures AnsweredExactly(old(ReadsOf()), ReadsOf(), Released(states, lastApplied))
    {
      hide ReadsInv, StatesValid, History, Answered, Waiting, Unsatisfied, AnsweredExactly, Released;
      var kept := ResponseReadStates(states);
      KeptStatesValid(states, readStates, required, lastApplied);
      readStates := readStates + kept;
    }

    /** `apply_entries`: Raft hands out entries that continue the log; anything else panics. */
    method ApplyEntries(entries: seq<EntryId>)
      requires Valid() && entries != [] && Consecutive(entries) && entries[0].index > 0
      requires entries[0].index == lastApplied + 1 || lastApplied == 0
      modifies this
      ensures Valid() && old(lastApplied) <= lastApplied == entries[|entries| - 1].index
      ensures proposalQueue == Remaining(old(proposalQueue), entries)
      ensures answers == old(answers) + Responses(old(proposalQueue), entries)
      ensures ids == old(ids) + entries && everApplied == old(everApplied) + (set id | id in entries)
      ensures delegated == old(delegated) && owner == old(owner) && required == old(required)
      ensures readStates == Unsatisfied(old(readStates), lastApplied)
      ensures AnsweredExactly(old(ReadsOf()), ReadsOf(), Released(old(readStates), lastApplied))
    {
      hide ReadsInv, StatesValid, Answered, Waiting, Unsatisfied, AnsweredExactly, Released, History, Remaining, Responses;
      ghost var queue, sent := proposalQueue, answers;
      AdvanceApplied(entries);
      LaterKeepsReads(ReadsOf(), old(lastApplied), lastApplied);
      RespondAll(entries);
      AnswersStayTrue(delegated, everApplied, queue, sent, entries);
      KeptStatesValid(readStates, [], required, lastApplied);
      readStates := ResponseReadStates(readStates);
    }

    /** The loop that applies the entries; the check for a gap never fires. */
    method AdvanceApplied(entries: seq<EntryId>)
      requires entries != [] && Consecutive(entries) && entries[0].index > 0
      requires entries[0].index == lastApplied + 1 || lastApplied == 0
      requires History(ids, lastApplied) && forall id :: id in ids ==> id in everApplied
      modifies this`lastApplied, this`ids, this`everApplied
      ensures lastApplied == entries[|entries| - 1].index && old(lastApplied) <= lastApplied
      ensures ids == old(ids) + entries && everApplied == old(everApplied) + (set id | id in entries)
      ensures History(ids, lastApplied) && forall id :: id in ids ==> id in everApplied
    {
      var i := 0;
      while i < |entries|
        invariant 0 <= i <= |entries|
        invariant lastApplied == if i == 0 then old(lastApplied) else entries[i - 1].index
        modifies this`lastApplied
      {
        assert entries[i].index == lastApplied + 1 || lastApplied == 0;
        lastApplied := entries[i].index;
        i := i + 1;
      }
      ids := ids + entries;
      everApplied := everApplied + (set id | id in entries);
    }

    method RespondAll(entries: seq<EntryId>)
      modifies this`proposalQueue, this`answers
      ensures proposalQueue == Remaining(old(proposalQueue), entries)
      ensures answers == old(answers) + Responses(old(proposalQueue), entries)
    {
      ghost var queue, sent := proposalQueue, answers;
      var i := 0;
      assert entries[0..] == entries;
      while i < |entries|
        invariant 0 <= i <= |entries|
        invariant Remaining(proposalQueue, entries[i..]) == Remaining(queue, entries)
        invariant answers + Responses(proposalQueue, entries[i..]) == sent + Responses(queue, entries)
      {
        ghost var rest := entries[i + 1..];
        assert entries[i..][1..] == rest;
        ghost var before, answered := proposalQueue, answers;
        ResponseProposal(entries[i]);
        assert answers + Responses(proposalQueue, rest) == answered + Responses(before, entries[i..]);
        i := i + 1;
      }
      assert entries[i..] == [];
    }

    /** `response_proposal`: only the head of the queue can be answered. */
    method ResponseProposal(id: EntryId)
      modifies this`proposalQueue, this`answers
      ensures if old(proposalQueue) != [] && old(proposalQueue)[0].index == id.index then
                && proposalQueue == old(proposalQueue)[1..]
                && answers == old(answers) + [Answer(old(proposalQueue)[0], old(proposalQueue)[0].term == id.term)]
              else
                proposalQueue == old(proposalQueue) && answers == old(answers)
    {
      if proposalQueue != [] && proposalQueue[0].index == id.index {
        var ctx := proposalQueue[0];
        proposalQueue := proposalQueue[1..];
        answers := answers + [Answer(ctx, ctx.term == id.term)];
      }
    }

    /** `apply_snapshot`: the position jumps to what the state machine has flushed. */
    method ApplySnapshot(flushed: nat)
      requires Valid() && lastApplied <= flushed
      modifies this`lastApplied, this`ids
      ensures Valid() && lastApplied == flushed && ids == []
    {
      LaterKeepsReads(ReadsOf(), lastApplied, flushed);
      hide ReadsInv, StatesValid, Answered, Waiting;
      lastApplied, ids := flushed, [];
    }
  }

  ghost predicate OksJustified(answers: seq<Answer>, applied: set<EntryId>) {
    forall i :: 0 <= i < |answers| && answers[i].ok ==>
      EntryId(answers[i].proposal.index, answers[i].proposal.term) in applied
  }

  /** After delegating, every proposal is queued or answered, and every Ok is justified. */
  lemma DelegatedOnce(delegated: multiset<Proposal>, applied: set<EntryId>, queue: seq<Proposal>, sent: seq<Answer>,
                      p: Proposal)
    requires delegated == Waiting(queue) + Answered(sent) && OksJustified(sent, applied)
    ensures delegated + multiset{p} == Waiting(Queued(queue, p)) + Answered(sent + Displaced(queue, p))
    ensures OksJustified(sent + Displaced(queue, p), applied)
  {
    assert OksJustified(sent + Displaced(queue, p), applied);
    hide Answered, Waiting, Displaced, Queued, OksJustified;
    DelegateConserves(queue, p);
    AnsweredConcat(sent, Displaced(queue, p));
    MovedOver(Waiting(queue), Answered(sent), Waiting(Queued(queue, p)), Answered(Displaced(queue, p)), multiset{p});
  }

  lemma MovedOver(a: multiset<Proposal>, b: multiset<Proposal>, c: multiset<Proposal>, d: multiset<Proposal>,
                  p: multiset<Proposal>)
    requires c + d == a + p
    ensures a + b + p == c + (b + d)
  {
    assert a + b + p == (a + p) + b && c + (b + d) == (c + d) + b;
  }

  /** After responding, every proposal is still queued or answered, and every Ok is justified. */
  lemma AnswersStayTrue(delegated: multiset<Proposal>, applied: set<EntryId>, queue: seq<Proposal>,
                        sent: seq<Answer>, entries: seq<EntryId>)
    requires delegated == Waiting(queue) + Answered(sent)
    requires OksJustified(sent, applied)
    requires forall id :: id in entries ==> id in applied
    ensures delegated == Waiting(Remaining(queue, entries)) + Answered(sent + Responses(queue, entries))
    ensures OksJustified(sent + Responses(queue, entries), applied)
  {
    RespondConserves(queue, entries);
    AnsweredConcat(sent, Responses(queue, entries));
    var all := sent + Responses(queue, entries);
    forall i | 0 <= i < |all| && all[i].ok ensures EntryId(all[i].proposal.index, all[i].proposal.term) in applied {
      if i >= |sent| { ResponsesTrue(queue, entries, i - |sent|); }
    }
  }

  // ---------------------------------------------------------------- read requests of the node

  /** Requests not delegated yet: new to the applier, and issued at or below the commit index. */
  ghost predicate PendingReads(pending: seq<nat>, owner: map<nat, nat>, issuedAt: map<nat, nat>, committed: nat) {
    Distinct(pending) &&
    forall s :: s in pending ==> s in issuedAt && issuedAt[s] <= committed && s !in owner
  }

  /** Every delegated reader needs at least what was committed when it asked. */
  ghost predicate NeedsCovered(owner: map<nat, nat>, required: map<nat, nat>, issuedAt: map<nat, nat>) {
    forall s :: s in owner ==> s in issuedAt && owner[s] in required && issuedAt[s] <= required[owner[s]]
  }

  lemma DelegationCovers(pending: seq<nat>, owner: map<nat, nat>, required: map<nat, nat>, issuedAt: map<nat, nat>,
                         ctx: nat, committed: nat)
    requires PendingReads(pending, owner, issuedAt, committed) && NeedsCovered(owner, required, issuedAt)
    requires ctx !in required
    ensures NeedsCovered(WithOwners(owner, pending, ctx), required[ctx := committed], issuedAt)
    ensures forall s :: s in pending ==>
              s in WithOwners(owner, pending, ctx) && WithOwners(owner, pending, ctx)[s] == ctx
  {
  }

  lemma OthersStayPending(others: seq<nat>, pending: seq<nat>, owner: map<nat, nat>, issuedAt: map<nat, nat>,
                          ctx: nat, committed: nat)
    requires PendingReads(others, owner, issuedAt, committed) && forall s :: s in others ==> s !in pending
    ensures PendingReads(others, WithOwners(owner, pending, ctx), issuedAt, committed)
  {
  }

  class ReadNode {
    const applier: Applier
    var leaseReads: seq<nat>
    var indexReads: seq<nat>
    var readStates: seq<ReadState>       // lease reads waiting for the next apply
    var committed: nat                   // Raft's commit index
    var refused: seq<nat>                // lease readers answered NotLeader

    ghost var issuedAt: map<nat, nat>    // every reader, to the commit index when it asked

    ghost predicate Valid()
      reads this, applier
    {
      && applier.Valid() && StatesValid(readStates, applier.required)
      && PendingReads(leaseReads, applier.owner, issuedAt, committed)
      && PendingReads(indexReads, applier.owner, issuedAt, committed)
      && (forall s :: s in leaseReads ==> s !in indexReads)
      && NeedsCovered(applier.owner, applier.required, issuedAt)
    }

    constructor (flushed: nat, committed: nat)
      ensures Valid() && fresh(applier) && this.committed == committed
    {
      applier := new Applier(flushed);
      leaseReads, indexReads, readStates, refused := [], [], [], [];
      this.committed, issuedAt := committed, map[];
    }

    /** A reader was answered Ok only after everything committed when it asked was applied. */
    lemma ReadsSeeCommitted(s: nat)
      requires Valid() && s in applier.readOks
      ensures s in issuedAt && issuedAt[s] <= applier.lastApplied
    {
    }

    method LeaseRead(sender: nat)
      requires Valid() && sender !in issuedAt
      modifies this`leaseReads, this`issuedAt
      ensures Valid() && issuedAt == old(issuedAt)[sender := committed]
      ensures leaseReads == old(leaseReads) + [sender]
    {
      hide Applier.Valid, StatesValid;
      leaseReads := leaseReads + [sender];
      issuedAt := issuedAt[sender := committed];
    }

    method ReadIndex(sender: nat)
      requires Valid() && sender !in issuedAt
      modifies this`indexReads, this`issuedAt
      ensures Valid() && issuedAt == old(issuedAt)[sender := committed]
      ensures indexReads == old(indexReads) + [sender]
    {
      hide Applier.Valid, StatesValid;
      indexReads := indexReads + [sender];
      issuedAt := issuedAt[sender := committed];
    }

    method CommitTo(index: nat)
      requires Valid() && committed <= index
      modifies this`committed
      ensures Valid() && committed == index
    {
      committed := index;
    }

    /** `advance_read_requests`; on a leader the lease reads wait for the commit index, and the
        read-index requests are handed to Raft under the returned context. */
    method AdvanceReadRequests(leader: bool) returns (asked: Option<nat>)
      requires Valid()
      modifies this, applier
      ensures Valid() && leaseReads == [] && indexReads == []
      ensures committed == old(committed) && issuedAt == old(issuedAt)
      ensures applier.lastApplied == old(applier.lastApplied) && applier.readOks == old(applier.readOks)
      ensures refused == if leader then old(refused) else old(refused) + old(leaseReads)
      ensures leader && old(leaseReads) != [] ==>
                && |readStates| > 0 && readStates[|readStates| - 1].index == committed
                && AllUnder(old(leaseReads), readStates[|readStates| - 1].ctx)
      ensures old(indexReads) != [] ==> asked.Some? && AllUnder(old(indexReads), asked.value)
      ensures old(indexReads) == [] ==> asked.None?
      ensures !leader || old(leaseReads) == [] ==> readStates == old(readStates)
      ensures leader && old(leaseReads) != [] ==> readStates[..|readStates| - 1] == old(readStates)
    {
      hide Applier.Valid, StatesValid, PendingReads, NeedsCovered, WithOwners;
      asked := None;
      if leaseReads != [] {
        if !leader {
          refused := refused + leaseReads;
          NonePending(applier.owner, issuedAt, committed);
          leaseReads := [];
        } else {
          DelegateLeaseReads();
        }
      }
      if indexReads != [] {
        var ctx := DelegateIndexReads();
        asked := Some(ctx);
      }
    }

    ghost predicate AllUnder(readers: seq<nat>, ctx: nat)
      reads this, applier
    {
      forall s :: s in readers ==> s in applier.owner && applier.owner[s] == ctx
    }

    lemma NonePending(owner: map<nat, nat>, issuedAt: map<nat, nat>, committed: nat)
      ensures PendingReads([], owner, issuedAt, committed)
    {
    }

    method DelegateLeaseReads()
      requires Valid()
      modifies this`leaseReads, this`readStates, applier
      ensures Valid() && leaseReads == []
      ensures applier.lastApplied == old(applier.lastApplied) && applier.readOks == old(applier.readOks)
      ensures |readStates| > 0 && readStates[|readStates| - 1].index == committed
      ensures readStates[..|readStates| - 1] == old(readStates)
      ensures AllUnder(old(leaseReads), readStates[|readStates| - 1].ctx)
    {
      hide Applier.Valid, NeedsCovered, WithOwners;
      ghost var owner, required := applier.owner, applier.required;
      var requests := leaseReads;
      leaseReads := [];
      var ctx := applier.DelegateReadRequests(requests, committed);
      DelegationCovers(requests, owner, required, issuedAt, ctx, committed);
      OthersStayPending(indexReads, requests, owner, issuedAt, ctx, committed);
      readStates := readStates + [ReadState(committed, ctx)];
    }

    method DelegateIndexReads() returns (ctx: nat)
      requires Valid() && leaseReads == []
      modifies this`indexReads, applier
      ensures Valid() && indexReads == [] && AllUnder(old(indexReads), ctx)
      ensures applier.lastApplied == old(applier.lastApplied) && applier.readOks == old(applier.readOks)
      ensures forall s :: s in old(applier.owner) ==> s in applier.owner && applier.owner[s] == old(applier.owner)[s]
    {
      hide Applier.Valid, NeedsCovered;
      ghost var owner, required := applier.owner, applier.required;
      var requests := indexReads;
      indexReads := [];
      ctx := applier.DelegateReadRequests(requests, committed);
      DelegationCovers(requests, owner, required, issuedAt, ctx, committed);
    }

    /** The read part of `handle_apply`, followed by the committed entries of the ready. */
    method HandleApply(fromRaft: seq<ReadState>, entries: seq<EntryId>)
      requires Valid() && StatesValid(fromRaft, applier.required)
      requires entries != [] ==>
                 && Consecutive(entries) && entries[0].index > 0
                 && (entries[0].index == applier.lastApplied + 1 || applier.lastApplied == 0)
      modifies this`readStates, applier
      ensures Valid() && readStates == []
      ensures applier.lastApplied == if entries == [] then old(applier.lastApplied) else entries[|entries| - 1].index
      ensures AnsweredExactly(old(applier.ReadsOf()), applier.ReadsOf(),
                              Released(old(readStates) + fromRaft + (if entries == [] then [] else old(applier.readStates)),
                                       applier.lastApplied))
    {
      hide Applier.Valid, AnsweredExactly, Released, Unsatisfied;
      ghost var r0, own, cached, last := applier.ReadsOf(), readStates, applier.readStates, applier.lastApplied;
      applier.ApplyReadStates(readStates);
      ghost var r1 := applier.ReadsOf();
      readStates := [];
      applier.ApplyReadStates(fromRaft);
      ghost var r2 := applier.ReadsOf();
      AnsweredTwice(r0, r1, r2, Released(own, last), Released(fromRaft, last));
      ReleasedConcat(own, fromRaft, last);
      if entries != [] {
        ghost var waiting := applier.readStates;
        applier.ApplyEntries(entries);
        AnsweredTwice(r0, r2, applier.ReadsOf(), Released(own + fromRaft, last), Released(waiting, applier.lastApplied));
        ReleasedInAll(own, fromRaft, cached, last, applier.lastApplied);
      } else {
        assert own + fromRaft + [] == own + fromRaft;
      }
    }
  }

  lemma ReleasedInAll(own: seq<ReadState>, more: seq<ReadState>, cached: seq<ReadState>, last: nat, later: nat)
    requires last <= later
    ensures Released(own + more, last) + Released(cached + Unsatisfied(own, last) + Unsatisfied(more, last), later)
            == Released(own + more + cached, later)
  {
    hide Released, Unsatisfied;
    ReleasedLater(own, last, later);
    ReleasedLater(more, last, later);
    ReleasedConcat(own, more, last);
    ReleasedConcat(own, more, later);
    ReleasedConcat(own + more, cached, later);
    ReleasedConcat(cached, Unsatisfied(own, last), later);
    ReleasedConcat(cached + Unsatisfied(own, last), Unsatisfied(more, last), later);
  }
}
