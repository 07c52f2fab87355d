/** A batch of writes as one transaction (`WriteBatchContext` of client/src/write_batch.rs): intents
    are prepared round by round until every write is accepted, then the transaction record is
    committed, then the intents are. */
module WriteBatch {
  import opened Options

  datatype Kind = Delete | Put

  /** What a server says of a prepared intent: the previous value if the request asked for it. */
  datatype Response = Response(prev: Option<nat>)

  datatype Write = Write(kind: Kind, request: nat, index: nat, done: bool, response: Option<Response>)

  datatype Reply = Accepted(response: Response) | Retryable | Fatal

  /** Round and position of a write decide whether its shard is known and what is answered; the
      rest is how many retries the deadline leaves time for, and the outcome of the requests for
      a commit version and of `commit_txn`. */
  datatype Env = Env(
    routed: (nat, nat) -> bool, reply: (nat, nat) -> Reply, retries: nat,
    commitVersion: Option<nat>, commitOk: bool)

  datatype Sent = Sent(round: nat, at: nat)

  function NotDone(writes: seq<Write>): nat {
    if writes == [] then 0 else NotDone(writes[..|writes| - 1]) + if writes[|writes| - 1].done then 0 else 1
  }

  lemma {:induction false} NotDoneMarks(writes: seq<Write>, i: nat, w: Write)
    requires i < |writes| && !writes[i].done && w.done
    ensures NotDone(writes[i := w]) == NotDone(writes) - 1
  {
    var n := |writes| - 1;
    if i == n {
      assert writes[i := w][..n] == writes[..n];
    } else {
      NotDoneMarks(writes[..n], i, w);
      assert writes[i := w][..n] == writes[..n][i := w];
    }
  }

  lemma {:induction false} NotDoneZero(writes: seq<Write>)
    ensures NotDone(writes) == 0 <==> forall i :: 0 <= i < |writes| ==> writes[i].done
  {
    if writes != [] { NotDoneZero(writes[..|writes| - 1]); }
  }

  lemma {:induction false} AllNotDone(writes: seq<Write>)
    requires forall i :: 0 <= i < |writes| ==> !writes[i].done
    ensures NotDone(writes) == |writes|
  {
    if writes != [] { AllNotDone(writes[..|writes| - 1]); }
  }

  /** The writes of a batch: the deletes, then the puts, each numbered within its kind. */
  ghost predicate Numbered(writes: seq<Write>, deletes: seq<nat>, puts: seq<nat>) {
    && |writes| == |deletes| + |puts|
    && forall i :: 0 <= i < |writes| ==>
         if i < |deletes| then writes[i].kind == Delete && writes[i].index == i && writes[i].request == deletes[i]
         else writes[i].kind == Put && writes[i].index == i - |deletes| && writes[i].request == puts[i - |deletes|]
  }

  /** A write that is done was accepted, with that response, the last time it was sent; one that
      is not done was never accepted. */
  ghost predicate Truthful(writes: seq<Write>, sent: seq<Sent>, answered: nat, env: Env) {
    && answered <= |sent|
    && (forall k :: 0 <= k < |sent| ==> sent[k].at < |writes|)
    && (forall i :: 0 <= i < |writes| && writes[i].done ==> AcceptedLast(sent, answered, i, writes[i].response, env))
    && (forall k :: 0 <= k < answered && env.reply(sent[k].round, sent[k].at).Accepted? ==> writes[sent[k].at].done)
  }

  ghost predicate AcceptedLast(sent: seq<Sent>, answered: nat, i: nat, response: Option<Response>, env: Env)
    requires answered <= |sent|
  {
    exists k :: 0 <= k < answered && sent[k].at == i && LastSent(sent, k)
                && response.Some? && env.reply(sent[k].round, i) == Accepted(response.value)
  }

  ghost predicate LastSent(sent: seq<Sent>, k: int)
    requires 0 <= k < |sent|
  {
    forall k' :: k < k' < |sent| ==> sent[k'].at != sent[k].at
  }

  /** Requests of one round, in order, for writes that were not done. */
  ghost predicate RoundOf(writes: seq<Write>, round: nat, batch: seq<Sent>) {
    && (forall k :: 0 <= k < |batch| ==> batch[k].round == round && batch[k].at < |writes| && !writes[batch[k].at].done)
    && (forall k, k' :: 0 <= k < k' < |batch| ==> batch[k].at < batch[k'].at)
  }

  /** None of the first `n` writes that were not done is missing from the round. */
  ghost predicate Complete(writes: seq<Write>, n: nat, batch: seq<Sent>)
    requires n <= |writes|
  {
    forall i :: 0 <= i < n && !writes[i].done ==> exists k :: 0 <= k < |batch| && batch[k].at == i
  }

  /** One more write joins the round. */
  lemma JoinRound(writes: seq<Write>, round: nat, n: nat, batch: seq<Sent>)
    requires n < |writes| && !writes[n].done && RoundOf(writes, round, batch) && Complete(writes, n, batch)
    requires forall k :: 0 <= k < |batch| ==> batch[k].at < n
    ensures RoundOf(writes, round, batch + [Sent(round, n)]) && Complete(writes, n + 1, batch + [Sent(round, n)])
  {
    var more := batch + [Sent(round, n)];
    forall i | 0 <= i < n + 1 && !writes[i].done ensures exists k :: 0 <= k < |more| && more[k].at == i {
      if i < n {
        var k :| 0 <= k < |batch| && batch[k].at == i;
        assert more[k].at == i;
      } else {
        assert more[|batch|].at == i;
      }
    }
  }

  lemma SendRound(writes: seq<Write>, sent: seq<Sent>, round: nat, batch: seq<Sent>, env: Env)
    requires Truthful(writes, sent, |sent|, env) && RoundOf(writes, round, batch)
    ensures Truthful(writes, sent + batch, |sent|, env)
  {
    var all := sent + batch;
    forall i | 0 <= i < |writes| && writes[i].done ensures AcceptedLast(all, |sent|, i, writes[i].response, env) {
      var k :| 0 <= k < |sent| && sent[k].at == i && LastSent(sent, k)
               && writes[i].response.Some? && env.reply(sent[k].round, i) == Accepted(writes[i].response.value);
      assert all[k] == sent[k];
      forall k' | k < k' < |all| ensures all[k'].at != i { }
      assert LastSent(all, k);
    }
  }

  lemma Answer(writes: seq<Write>, sent: seq<Sent>, answered: nat, env: Env, writes': seq<Write>)
    requires Truthful(writes, sent, answered, env) && answered < |sent| && LastSent(sent, answered)
    requires !writes[sent[answered].at].done
    requires var i, reply := sent[answered].at, env.reply(sent[answered].round, sent[answered].at);
             writes' ==
             if reply.Accepted? then writes[i := writes[i].(done := true, response := Some(reply.response))] else writes
    ensures Truthful(writes', sent, answered + 1, env)
  {
  }

  /** The answers to the first `k` requests of a round have been taken. */
  ghost predicate Taken(before: seq<Write>, after: seq<Write>, handles: seq<Sent>, k: nat, round: nat, env: Env)
    requires k <= |handles| && |after| == |before| && RoundOf(before, round, handles)
  {
    && (forall i :: k <= i < |handles| ==> after[handles[i].at] == before[handles[i].at])
    && (forall i :: 0 <= i < k ==> env.reply(round, handles[i].at) != Fatal)
    && (forall i :: 0 <= i < k ==> (after[handles[i].at].done <==> env.reply(round, handles[i].at).Accepted?))
    && (forall i :: 0 <= i < |after| && (forall k' :: 0 <= k' < |handles| ==> handles[k'].at != i) ==>
          after[i] == before[i])
  }

  lemma NoneTaken(writes: seq<Write>, handles: seq<Sent>, round: nat, env: Env)
    requires RoundOf(writes, round, handles)
    ensures Taken(writes, writes, handles, 0, round, env)
  {
  }

  lemma TakeOne(first: seq<Write>, before: seq<Write>, after: seq<Write>, handles: seq<Sent>, k: nat, round: nat, env: Env)
    requires k < |handles| && |before| == |first| == |after| && RoundOf(first, round, handles)
    requires Taken(first, before, handles, k, round, env) && env.reply(round, handles[k].at) != Fatal
    requires forall i :: 0 <= i < |after| && i != handles[k].at ==> after[i] == before[i]
    requires after[handles[k].at].done <==> env.reply(round, handles[k].at).Accepted?
    ensures Taken(first, after, handles, k + 1, round, env)
  {
  }

  lemma TakenMeans(before: seq<Write>, after: seq<Write>, handles: seq<Sent>, k: nat, round: nat, env: Env)
    requires k <= |handles| && |after| == |before| && RoundOf(before, round, handles)
    requires Taken(before, after, handles, k, round, env)
    ensures forall i :: 0 <= i < |after| && (forall k' :: 0 <= k' < |handles| ==> handles[k'].at != i) ==>
              after[i] == before[i]
    ensures k < |handles| ==> after[handles[k].at] == before[handles[k].at]
    ensures forall i :: 0 <= i < k ==> env.reply(round, handles[i].at) != Fatal
    ensures forall i :: 0 <= i < k ==> (after[handles[i].at].done <==> env.reply(round, handles[i].at).Accepted?)
  {
  }

  datatype Outcome =
    | Failed                                      // nothing was sent to the transaction table
    | NotCommitted                                // the commit record was sent and refused
    | Committed(version: nat, deletes: seq<Option<nat>>, puts: seq<Option<nat>>)

  // ---- When a batch is prepared, by the answers alone ----

  /** One of the first `n` rounds accepts the i-th write. */
  ghost predicate DoneBy(env: Env, i: nat, n: nat) {
    exists m: nat :: m < n && env.reply(m, i).Accepted?
  }

  /** Every write that is left for round `m` has a shard and is not refused for good. */
  ghost predicate CleanRound(env: Env, count: nat, m: nat) {
    forall i: nat :: i < count && !DoneBy(env, i, m) ==> env.routed(m, i) && env.reply(m, i) != Fatal
  }

  ghost predicate AllDoneBy(env: Env, count: nat, n: nat) {
    forall i: nat :: i < count ==> DoneBy(env, i, n)
  }

  ghost predicate PreparedIn(env: Env, count: nat, n: nat) {
    && (forall m: nat :: m <= n ==> CleanRound(env, count, m))
    && AllDoneBy(env, count, n + 1)
  }

  /** Within the retries there is time for, every write is accepted, and nothing goes wrong before. */
  ghost predicate Prepares(env: Env, count: nat) {
    exists n: nat :: n <= env.retries && PreparedIn(env, count, n)
  }

  /** The flags are those of the writes accepted in the first `n` rounds. */
  ghost predicate Flags(writes: seq<Write>, env: Env, n: nat) {
    forall i :: 0 <= i < |writes| ==> (writes[i].done <==> DoneBy(env, i, n))
  }

  lemma DoneByNext(env: Env, i: nat, n: nat)
    ensures DoneBy(env, i, n + 1) <==> DoneBy(env, i, n) || env.reply(n, i).Accepted?
  {
    if env.reply(n, i).Accepted? { assert n < n + 1; }
  }

  lemma FlagsNext(writes: seq<Write>, writes': seq<Write>, env: Env, n: nat)
    requires Flags(writes, env, n) && |writes'| == |writes|
    requires forall i: nat :: i < |writes| ==> (writes'[i].done <==> writes[i].done || env.reply(n, i).Accepted?)
    ensures Flags(writes', env, n + 1)
  {
    forall i | 0 <= i < |writes'| ensures writes'[i].done <==> DoneBy(env, i, n + 1) { DoneByNext(env, i, n); }
  }

  /** A round that leaves something undone rules out that an earlier one left nothing. */
  lemma NotPreparedEarlier(env: Env, count: nat, i: nat, round: nat, n: nat)
    requires i < count && !DoneBy(env, i, round) && n + 1 <= round
    ensures !PreparedIn(env, count, n)
  {
    assert DoneBy(env, i, n + 1) ==> DoneBy(env, i, round);
  }

  lemma NothingDone(writes: seq<Write>, env: Env)
    requires forall i :: 0 <= i < |writes| ==> !writes[i].done
    ensures Flags(writes, env, 0) && Going(env, |writes|, 0)
  {
  }

  /** All rounds so far were clean, and the last of them left something undone. */
  ghost predicate Going(env: Env, count: nat, round: nat) {
    && (forall m: nat :: m < round ==> CleanRound(env, count, m))
    && (round > 0 ==> exists i: nat :: i < count && !DoneBy(env, i, round))
  }

  /** What a round means for the whole: a failure is final, a round that leaves nothing undone is
      success, and one that does is failure if it is the last. */
  lemma RoundOver(before: seq<Write>, after: seq<Write>, env: Env, round: nat, ok: bool)
    requires Flags(before, env, round) && Going(env, |before|, round) && |after| == |before| && round <= env.retries
    requires ok <==> forall i: nat :: i < |before| && !before[i].done ==> env.routed(round, i) && env.reply(round, i) != Fatal
    requires ok ==> forall i: nat :: i < |after| ==> (after[i].done <==> before[i].done || env.reply(round, i).Accepted?)
    ensures !ok ==> !Prepares(env, |before|)
    ensures ok ==> Flags(after, env, round + 1)
    ensures ok && (forall i :: 0 <= i < |after| ==> after[i].done) ==> Prepares(env, |before|)
    ensures ok && !(forall i :: 0 <= i < |after| ==> after[i].done) ==>
              Going(env, |before|, round + 1) && (round == env.retries ==> !Prepares(env, |before|))
  {
    var count := |before|;
    assert ok <==> CleanRound(env, count, round);
    if ok {
      FlagsNext(before, after, env, round);
      if forall i :: 0 <= i < |after| ==> after[i].done {
        assert PreparedIn(env, count, round);
      } else {
        var i :| 0 <= i < |after| && !after[i].done;
        assert !DoneBy(env, i, round + 1);
        forall n: nat | n <= round ensures !PreparedIn(env, count, n) { NotPreparedEarlier(env, count, i, round + 1, n); }
      }
    } else {
      forall n: nat ensures !PreparedIn(env, count, n) {
        if n < round {
          var i: nat :| i < count && !DoneBy(env, i, round);
          NotPreparedEarlier(env, count, i, round, n);
        }
      }
    }
  }

  /** The last request for the i-th write was accepted, with this previous value. */
  ghost predicate AnsweredWith(sent: seq<Sent>, env: Env, i: nat, prev: Option<nat>) {
    exists j :: 0 <= j < |sent| && sent[j].at == i && LastSent(sent, j)
                && env.reply(sent[j].round, i).Accepted? && env.reply(sent[j].round, i).response.prev == prev
  }

  lemma AcceptedIsAnswered(sent: seq<Sent>, env: Env, i: nat, w: Write)
    requires AcceptedLast(sent, |sent|, i, w.response, env)
    ensures AnsweredWith(sent, env, i, PrevOf(w))
  {
  }

  function PrevOf(w: Write): Option<nat> {
    if w.response.Some? then w.response.value.prev else None
  }

  class Context {
    var writes: seq<Write>
    var numDeletes: nat
    var doing: nat
    ghost var sent: seq<Sent>
    ghost var answered: nat
    ghost const deletes: seq<nat>
    ghost const puts: seq<nat>

    /** `new`. */
    constructor (deletes: seq<nat>, puts: seq<nat>)
      ensures this.deletes == deletes && this.puts == puts && sent == [] && answered == 0
      ensures forall env :: Valid(env)
      ensures forall i :: 0 <= i < |writes| ==> !writes[i].done
    {
      writes := seq(|deletes| + |puts|, i requires 0 <= i < |deletes| + |puts| =>
        if i < |deletes| then Write(Delete, deletes[i], i, false, None)
        else Write(Put, puts[i - |deletes|], i - |deletes|, false, None));
      numDeletes, doing := |deletes|, |deletes| + |puts|;
      sent, answered := [], 0;
      this.deletes, this.puts := deletes, puts;
      new;
      AllNotDone(writes);
    }

    ghost predicate Valid(env: Env)
      reads this
    {
      && Numbered(writes, deletes, puts) && numDeletes == |deletes|
      && doing == NotDone(writes)
      && Truthful(writes, sent, answered, env)
    }

    /** The answer to the next request of a round. The counter does not underflow. */
    method Receive(at: nat, reply: Reply, ghost env: Env)
      requires Valid(env) && answered < |sent| && LastSent(sent, answered)
      requires sent[answered].at == at < |writes| && !writes[at].done
      requires reply == env.reply(sent[answered].round, at)
      modifies this`writes, this`doing, this`answered
      ensures Valid(env) && answered == old(answered) + 1 && |writes| == |old(writes)|
      ensures forall i :: 0 <= i < |writes| && i != at ==> writes[i] == old(writes)[i]
      ensures writes[at].done <==> reply.Accepted?
    {
      hide Truthful, Numbered;
      Answer(writes, sent, answered, env,
             if reply.Accepted? then writes[at := writes[at].(done := true, response := Some(reply.response))] else writes);
      if reply.Accepted? {
        NotDoneMarks(writes, at, writes[at].(done := true, response := Some(reply.response)));
        KeepsNumbers(writes, writes[at := writes[at].(done := true, response := Some(reply.response))], deletes, puts);
        doing := doing - 1;
        writes := writes[at := writes[at].(done := true, response := Some(reply.response))];
      }
      answered := answered + 1;
    }

    /** The second loop of `prepare_intents_inner`: answers are taken in order, up to a fatal one. */
    method Collect(round: nat, handles: seq<Sent>, env: Env) returns (ok: bool)
      requires Valid(env) && answered + |handles| == |sent| && sent[answered..] == handles
      requires RoundOf(writes, round, handles)
      modifies this`writes, this`doing, this`answered
      ensures Valid(env) && (ok ==> answered == |sent|) && |writes| == |old(writes)|
      ensures ok <==> forall k :: 0 <= k < |handles| ==> env.reply(round, handles[k].at) != Fatal
      ensures ok ==> forall k :: 0 <= k < |handles| ==>
                (writes[handles[k].at].done <==> env.reply(round, handles[k].at).Accepted?)
      ensures forall i :: 0 <= i < |writes| && (forall k :: 0 <= k < |handles| ==> handles[k].at != i) ==>
                writes[i] == old(writes)[i]
    {
      hide Truthful, Numbered, NotDone, Taken, LastSent;
      ghost var base := answered;
      NoneTaken(writes, handles, round, env);
      for k := 0 to |handles|
        invariant Valid(env) && answered == base + k && |writes| == |old(writes)|
        invariant Taken(old(writes), writes, handles, k, round, env)
      {
        assert sent[answered] == handles[k];
        TakenMeans(old(writes), writes, handles, k, round, env);
        var reply := env.reply(round, handles[k].at);
        if reply == Fatal {
          return false;
        }
        assert sent[..base] + handles == sent;
        LastInRound(sent[..base], handles, k);
        ghost var before := writes;
        Receive(handles[k].at, reply, env);
        TakeOne(old(writes), before, writes, handles, k, round, env);
      }
      TakenMeans(old(writes), writes, handles, |handles|, round, env);
      ok := true;
    }

    /** `prepare_intents_inner`: one request for each write that is not done. `None` is an error,
        `Some(true)` asks for another round. */
    method PrepareOnce(round: nat, env: Env) returns (more: Option<bool>)
      requires Valid(env) && answered == |sent|
      modifies this`writes, this`doing, this`sent, this`answered
      ensures Valid(env) && old(sent) <= sent && RoundOf(old(writes), round, sent[|old(sent)|..])
      ensures more.Some? ==> answered == |sent| && more.value == (doing > 0)
      ensures more.Some? ==> Complete(old(writes), |old(writes)|, sent[|old(sent)|..])
      ensures |writes| == |old(writes)|
      ensures more.Some? <==> forall i: nat :: i < |old(writes)| && !old(writes)[i].done ==>
                env.routed(round, i) && env.reply(round, i) != Fatal
      ensures more.Some? ==> forall i: nat :: i < |writes| ==>
                (writes[i].done <==> old(writes)[i].done || env.reply(round, i).Accepted?)
    {
      hide Truthful, Numbered, NotDone;
      var handles, ok := Spawn(writes, round, env);
      SendRound(writes, sent, round, handles, env);
      sent := sent + handles;
      assert sent[|old(sent)|..] == handles;
      if !ok {
        return None;
      }
      ok := Collect(round, handles, env);
      assert forall i: nat :: i < |old(writes)| && !old(writes)[i].done ==>
                                exists k :: 0 <= k < |handles| && handles[k].at == i;
      if !ok {
        return None;
      }
      more := Some(doing > 0);
    }

    /** `prepare_intents`: from a fresh batch it succeeds exactly if the answers allow, and then every
        write is done. */
    method PrepareIntents(env: Env) returns (ok: bool)
      requires Valid(env) && answered == |sent|
      modifies this`writes, this`doing, this`sent, this`answered
      ensures Valid(env) && |writes| == |old(writes)|
      ensures ok ==> answered == |sent| && forall i :: 0 <= i < |writes| ==> writes[i].done
      ensures (forall i :: 0 <= i < |old(writes)| ==> !old(writes)[i].done) ==> (ok <==> Prepares(env, |writes|))
    {
      hide Truthful, Numbered, PreparedIn, CleanRound, DoneBy, Flags;
      ghost var clean := forall i :: 0 <= i < |writes| ==> !writes[i].done;
      ghost var count := |writes|;
      if clean { NothingDone(writes, env); }
      var round := 0;
      while true
        invariant Valid(env) && answered == |sent| && round <= env.retries && |writes| == count
        invariant clean ==> Flags(writes, env, round) && Going(env, count, round)
        decreases env.retries - round
      {
        ghost var before := writes;
        var more := PrepareOnce(round, env);
        NotDoneZero(writes);
        if clean { RoundOver(before, writes, env, round, more.Some?); }
        if more.None? {
          return false;
        }
        if !more.value {
          return true;
        }
        if round == env.retries {
          return false;
        }
        round := round + 1;
      }
    }

    /** `commit_inner`. The commit record is sent only after every intent was accepted, none of
        them sent again after that, and the previous values line up with the requests. */
    method CommitInner(env: Env) returns (outcome: Outcome)
      requires Valid(env) && sent == [] && answered == 0
      modifies this
      ensures Valid(env)
      ensures !outcome.Failed? ==> forall i: nat :: i < |writes| ==> AcceptedLast(sent, |sent|, i, writes[i].response, env)
      ensures outcome.Committed? ==> env.commitOk && env.commitVersion == Some(outcome.version)
      ensures outcome.Committed? ==>
                && |outcome.deletes| == |deletes| && |outcome.puts| == |puts|
                && (forall k: nat :: k < |deletes| ==> AnsweredWith(sent, env, k, outcome.deletes[k]))
                && (forall k: nat :: k < |puts| ==> AnsweredWith(sent, env, |deletes| + k, outcome.puts[k]))
      ensures (forall i :: 0 <= i < |old(writes)| ==> !old(writes)[i].done) ==>
                var prepared := Prepares(env, |deletes| + |puts|) && env.commitVersion.Some?;
                && (outcome.Committed? <==> prepared && env.commitOk)
                && (outcome.NotCommitted? <==> prepared && !env.commitOk)
    {
      hide PreparedIn, CleanRound, DoneBy;
      var ok := PrepareIntents(env);
      if !ok || env.commitVersion.None? {
        return Failed;
      }
      if !env.commitOk {
        return NotCommitted;
      }
      forall i: nat | i < |writes| ensures AnsweredWith(sent, env, i, PrevOf(writes[i])) {
        AcceptedIsAnswered(sent, env, i, writes[i]);
      }
      var ds, ps := Responses(writes, deletes, puts);
      outcome := Committed(env.commitVersion.value, ds, ps);
    }
  }

  /** The loop of `commit_inner` over the writes. */
  method Responses(writes: seq<Write>, ghost deletes: seq<nat>, ghost puts: seq<nat>)
    returns (ds: seq<Option<nat>>, ps: seq<Option<nat>>)
    requires Numbered(writes, deletes, puts)
    ensures |ds| == |deletes| && |ps| == |puts|
    ensures forall k :: 0 <= k < |deletes| ==> ds[k] == PrevOf(writes[k])
    ensures forall k :: 0 <= k < |puts| ==> ps[k] == PrevOf(writes[|deletes| + k])
  {
    ds, ps := [], [];
    for i := 0 to |writes|
      invariant |ds| == (if i < |deletes| then i else |deletes|) && |ps| == i - |ds|
      invariant forall k :: 0 <= k < |ds| ==> ds[k] == PrevOf(writes[k])
      invariant forall k :: 0 <= k < |ps| ==> ps[k] == PrevOf(writes[|deletes| + k])
    {
      match writes[i].kind {
        case Delete => ds := ds + [PrevOf(writes[i])];
        case Put => ps := ps + [PrevOf(writes[i])];
      }
    }
  }

  lemma KeepsNumbers(writes: seq<Write>, writes': seq<Write>, deletes: seq<nat>, puts: seq<nat>)
    requires Numbered(writes, deletes, puts) && |writes'| == |writes|
    requires forall i :: 0 <= i < |writes| ==>
               writes'[i].kind == writes[i].kind && writes'[i].index == writes[i].index
               && writes'[i].request == writes[i].request
    ensures Numbered(writes', deletes, puts)
  {
  }

  lemma LastInRound(sent: seq<Sent>, batch: seq<Sent>, k: nat)
    requires k < |batch| && forall k, k' :: 0 <= k < k' < |batch| ==> batch[k].at < batch[k'].at
    ensures LastSent(sent + batch, |sent| + k)
  {
  }

  /** The first write that is not done and whose shard is not known. */
  ghost predicate FirstUnrouted(writes: seq<Write>, round: nat, env: Env, n: nat) {
    && n < |writes| && !writes[n].done && !env.routed(round, n)
    && forall i: nat :: i < n && !writes[i].done ==> env.routed(round, i)
  }

  /** The first loop of `prepare_intents_inner`: a request for each write that is not done, up to
      the first one whose shard is not known. */
  method Spawn(writes: seq<Write>, round: nat, env: Env) returns (handles: seq<Sent>, ok: bool)
    ensures RoundOf(writes, round, handles)
    ensures ok ==> Complete(writes, |writes|, handles)
    ensures ok <==> forall i: nat :: i < |writes| && !writes[i].done ==> env.routed(round, i)
    ensures !ok ==> exists n: nat :: FirstUnrouted(writes, round, env, n) && Complete(writes, n, handles)
                                     && forall k :: 0 <= k < |handles| ==> handles[k].at < n
  {
    hide RoundOf, Complete;
    handles, ok := [], true;
    NoRequests(writes, round);
    for i := 0 to |writes|
      invariant RoundOf(writes, round, handles) && Complete(writes, i, handles)
      invariant forall k :: 0 <= k < |handles| ==> handles[k].at < i
      invariant forall j: nat :: j < i && !writes[j].done ==> env.routed(round, j)
    {
      if !writes[i].done {
        if !env.routed(round, i) {
          assert FirstUnrouted(writes, round, env, i);
          return handles, false;
        }
        JoinRound(writes, round, i, handles);
        handles := handles + [Sent(round, i)];
      } else {
        SkipDone(writes, i, handles);
      }
    }
  }

  lemma NoRequests(writes: seq<Write>, round: nat)
    ensures RoundOf(writes, round, []) && Complete(writes, 0, [])
  {
  }

  lemma SkipDone(writes: seq<Write>, n: nat, batch: seq<Sent>)
    requires n < |writes| && writes[n].done && Complete(writes, n, batch)
    ensures Complete(writes, n + 1, batch)
  {
  }

  // ---- Committing the intents ----

  /** How a round of `commit_intents_inner` ends: `Ends(true)` would ask for another round. */
  datatype RoundEnd = Ends(more: bool) | Breaks

  /** The j-th write is flagged once the first `k` intents are committed: flags are set by the
      number of the sender within its kind. */
  ghost predicate Flagged(writes: seq<Write>, k: int, j: int)
    requires k <= |writes|
  {
    exists i :: 0 <= i < k && writes[i].index == j
  }

  /** The flags are those of the committed intents exactly when a batch does not mix deletes and
      puts. */
  lemma FlagsExactIff(writes: seq<Write>, deletes: seq<nat>, puts: seq<nat>)
    requires Numbered(writes, deletes, puts)
    ensures (forall k, j :: 0 <= k <= |writes| && 0 <= j < |writes| ==> (Flagged(writes, k, j) <==> j < k))
            <==> deletes == [] || puts == []
  {
    if deletes == [] || puts == [] {
      forall k, j | 0 <= k <= |writes| && 0 <= j < |writes| ensures Flagged(writes, k, j) <==> j < k {
        if j < k { assert writes[j].index == j; }
      }
    } else {
      var n := |writes|;
      forall i | 0 <= i < n ensures writes[i].index != n - 1 { }
      assert !Flagged(writes, n, n - 1);
    }
  }

  /** With one delete and one put, the put is not flagged although both intents are committed. */
  lemma MixedBatchMisflags(writes: seq<Write>, delete: nat, put: nat)
    requires Numbered(writes, [delete], [put])
    ensures |writes| == 2 && !Flagged(writes, 2, 1)
  {
  }

  lemma NothingFlagged(writes: seq<Write>)
    ensures forall j :: !Flagged(writes, 0, j)
  {
  }

  lemma FlagOneMore(writes: seq<Write>, k: int, j: int)
    requires 0 <= k < |writes|
    ensures Flagged(writes, k + 1, j) <==> Flagged(writes, k, j) || writes[k].index == j
  {
  }

  lemma IndexInBounds(writes: seq<Write>, deletes: seq<nat>, puts: seq<nat>)
    requires Numbered(writes, deletes, puts)
    ensures forall i :: 0 <= i < |writes| ==> writes[i].index < |writes|
  {
  }

  /** `commit_intents_inner` on a batch that was just reset. Any failure is reported as an internal
      error, which is not retryable, so the round either commits every intent or breaks off; the
      counter does not underflow, however the flags come out. */
  method CommitRound(writes: seq<Write>, doing: nat, routed: nat -> bool, ok: nat -> bool,
                     ghost deletes: seq<nat>, ghost puts: seq<nat>)
    returns (end: RoundEnd, writes': seq<Write>, doing': nat)
    requires Numbered(writes, deletes, puts) && doing == |writes| && forall i :: 0 <= i < |writes| ==> !writes[i].done
    ensures end == Ends(false) || end == Breaks
    ensures end == Ends(false) <==> forall i: nat :: i < |writes| ==> routed(i) && ok(i)
    ensures end == Ends(false) ==> doing' == 0
    ensures |writes'| == |writes| && doing' <= doing
    ensures forall j :: 0 <= j < |writes| ==> (writes'[j].done <==> Flagged(writes, doing - doing', j))
  {
    hide Numbered, Flagged;
    IndexInBounds(writes, deletes, puts);
    writes', doing' := writes, doing;
    NothingFlagged(writes);
    for i := 0 to |writes|
      invariant forall j: nat :: j < i ==> routed(j)
    {
      if !routed(i) {
        return Breaks, writes, doing;
      }
    }
    for i := 0 to |writes|
      invariant |writes'| == |writes| && doing' == doing - i
      invariant forall j: nat :: j < i ==> ok(j)
      invariant forall j :: 0 <= j < |writes| ==> (writes'[j].done <==> Flagged(writes, i, j))
    {
      if !ok(i) {
        return Breaks, writes', doing';
      }
      forall j ensures Flagged(writes, i + 1, j) <==> Flagged(writes, i, j) || writes[i].index == j {
        FlagOneMore(writes, i, j);
      }
      var at := writes[i].index;
      writes' := writes'[at := writes'[at].(done := true)];
      doing' := doing' - 1;
    }
    end := Ends(doing' > 0);
  }
}
