/** Waiting for the outcome of another transaction's intent (the latch block of one key in
    replica/eval/latch.rs). */
module IntentWaiters {
  import opened Options

  /** An answer given to whoever waited for transaction `awaited`: the outcome of `signalled`. */
  datatype Answer = Answer(awaited: nat, signalled: nat)

  datatype Block = Block(intent: Option<nat>, waiters: seq<nat>, answers: seq<Answer>)

  datatype Step =
    | Place(t: nat)        // `write_intent` on a free key
    | Wait                 // `resolve_txn` while the transaction is running and alive
    | Settle(t: nat)       // `commit_intent` or `clear_intent` of the transaction: signals every waiter
    | Resolve(t: nat)      // a resolver settles the intent itself: signals nobody

  function Do(b: Block, step: Step): Block {
    match step
    case Place(t) => if b.intent.None? then b.(intent := Some(t)) else b
    case Wait => if b.intent.Some? then b.(waiters := b.waiters + [b.intent.value]) else b
    case Settle(t) =>
      if b.intent == Some(t)
      then Block(None, [], b.answers + seq(|b.waiters|, i requires 0 <= i < |b.waiters| => Answer(b.waiters[i], t)))
      else b
    case Resolve(t) => if b.intent == Some(t) then b.(intent := None) else b
  }

  function Run(b: Block, steps: seq<Step>): Block {
    if steps == [] then b else Do(Run(b, steps[..|steps| - 1]), steps[|steps| - 1])
  }

  ghost predicate Truthful(b: Block) {
    forall i :: 0 <= i < |b.answers| ==> b.answers[i].awaited == b.answers[i].signalled
  }

  /** Everyone waiting waits for the intent that is there. */
  ghost predicate Matched(b: Block) {
    forall i :: 0 <= i < |b.waiters| ==> b.intent == Some(b.waiters[i])
  }

  /** No resolver settles an intent that others wait for. */
  ghost predicate Considerate(b: Block, steps: seq<Step>) {
    forall n :: 0 <= n < |steps| && steps[n].Resolve? ==> Run(b, steps[..n]).waiters == []
  }

  /** If no resolver ever settles an intent others wait for, every answer is the outcome that was
      asked for. */
  lemma {:induction false} ConsiderateIsTruthful(b: Block, steps: seq<Step>)
    requires Truthful(b) && Matched(b) && Considerate(b, steps)
    ensures Truthful(Run(b, steps)) && Matched(Run(b, steps))
  {
    if steps != [] {
      var n := |steps| - 1;
      var p := steps[..n];
      forall m | 0 <= m < n && p[m].Resolve? ensures Run(b, p[..m]).waiters == [] {
        assert p[..m] == steps[..m] && steps[m] == p[m];
      }
      ConsiderateIsTruthful(b, p);
      if steps[n].Resolve? { assert Run(b, p).waiters == []; }
    }
  }

  /** The answers to come are right in every considerate future exactly when everyone waits for
      the intent that is there. A resolver that settles an intent others wait for breaks this:
      the next transaction to settle on the key answers them in its place. */
  lemma TruthfulFuturesIff(b: Block)
    requires Truthful(b)
    ensures (forall steps :: Considerate(b, steps) ==> Truthful(Run(b, steps))) <==> Matched(b)
  {
    if Matched(b) {
      forall steps | Considerate(b, steps) ensures Truthful(Run(b, steps)) { ConsiderateIsTruthful(b, steps); }
    } else {
      var i :| 0 <= i < |b.waiters| && b.intent != Some(b.waiters[i]);
      if b.intent.Some? {
        var steps := [Settle(b.intent.value)];
        var b' := Run(b, steps);
        assert steps[..0] == [];
        assert Run(b, steps[..0]) == b && b' == Do(b, steps[0]);
        assert b'.answers[|b.answers| + i] == Answer(b.waiters[i], b.intent.value);
        assert Considerate(b, steps) && !Truthful(b');
      } else {
        Stranded(b, i, b.waiters[i] + 1);
      }
    }
  }

  /** Someone left waiting for a transaction whose intent is gone is answered with the outcome of
      whichever transaction settles on the key next. */
  lemma Stranded(b: Block, i: nat, t: nat)
    requires i < |b.waiters| && b.intent.None? && t != b.waiters[i]
    ensures Considerate(b, [Place(t), Settle(t)])
    ensures Answer(b.waiters[i], t) in Run(b, [Place(t), Settle(t)]).answers
    ensures !Truthful(Run(b, [Place(t), Settle(t)]))
  {
    var steps := [Place(t), Settle(t)];
    assert steps[..1] == [Place(t)] && steps[..1][..0] == [];
    var b1 := Do(b, Place(t));
    assert Run(b, steps[..1]) == b1;
    var b2 := Run(b, steps);
    assert b2 == Do(b1, Settle(t));
    assert b2.answers[|b.answers| + i] == Answer(b.waiters[i], t);
  }

  /** Someone waits for transaction 1, a resolver settles its intent, and transaction 2 answers. */
  function StrandingRun(): seq<Step> {
    [Place(1), Wait, Resolve(1), Place(2), Settle(2)]
  }

  /** A run from a key nobody has touched that gives a false answer. */
  lemma StrandingRunLies()
    ensures Run(Block(None, [], []), StrandingRun()).answers == [Answer(1, 2)]
    ensures !Truthful(Run(Block(None, [], []), StrandingRun()))
  {
    var b, steps := Block(None, [], []), StrandingRun();
    assert steps[..0] == [] && steps[..1] == [Place(1)] && steps[..2] == [Place(1), Wait];
    assert steps[..1][..0] == [] && steps[..2][..1] == steps[..1] && steps[..3][..2] == steps[..2];
    assert steps[..4][..3] == steps[..3];
    assert Run(b, steps[..1]) == Block(Some(1), [], []);
    assert Run(b, steps[..2]) == Block(Some(1), [1], []);
    assert Run(b, steps[..3]) == Block(None, [1], []);
    assert Run(b, steps[..4]) == Block(Some(2), [1], []);
    assert Run(b, steps).answers[0] == Answer(1, 2);
  }
}
