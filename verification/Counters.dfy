/** Increments under the transaction protocol (`apply_put_op` of replica/eval/cmd_txn.rs): a key that is
    only ever added to shows the sum of what the committed transactions added. */
module Counters {
  import opened Bytes
  import opened Intents
  import opened Options

  /** `decode_i64`, on the bits of the number; what is not eight bytes long is not a number. */
  function Decode(content: ByteString): Option<U64> {
    if |content| != 8 then None else (FromBigEndianRoundTrip(content); Some(FromBigEndian(content)))
  }

  /** Addition of 64-bit numbers that wraps around; the bits are the same for signed ones. */
  function Add(a: U64, b: U64): U64 { (a + b) % TWO_64 }

  /** `apply_put_op` for an addition: a missing or deleted value counts as zero, and something that is
      not a number refuses. */
  function Increment(delta: U64, prev: Option<Value>): Option<Op> {
    if prev.None? || prev.value.content.None? then Some(Assign(BigEndian(Add(0, delta), 8)))
    else
      var former := Decode(prev.value.content.value);
      if former.None? then None else Some(Assign(BigEndian(Add(former.value, delta), 8)))
  }

  /** The number a key shows. */
  function NumberOf(shown: Option<Value>): Option<U64> {
    if shown.None? || shown.value.content.None? then Some(0) else Decode(shown.value.content.value)
  }

  lemma IncrementAdds(delta: U64, prev: Option<Value>, v: nat)
    requires NumberOf(prev).Some?
    ensures Increment(delta, prev).Some? && Increment(delta, prev).value.Assign?
    ensures NumberOf(Some(Value(Some(Increment(delta, prev).value.value), v))) == Some(Add(NumberOf(prev).value, delta))
  {
    Pow256Eight();
    BigEndianRoundTrip(Add(NumberOf(prev).value, delta), 8);
  }

  /** Every request of the run on the key adds what its transaction is to add. */
  ghost predicate OnlyAdds(steps: seq<Step>, k: Key, deltas: nat -> U64) {
    forall i :: 0 <= i < |steps| && steps[i].WriteIntent? && steps[i].key == k ==> AddsTo(steps[i], deltas)
  }

  ghost predicate AddsTo(step: Step, deltas: nat -> U64)
    requires step.WriteIntent?
  {
    forall prev :: step.eval(prev) == Increment(deltas(step.t), prev)
  }

  /** What the transactions committed on the key up to version `r` were to add. */
  ghost function Sum(s: State, k: Key, r: int, deltas: nat -> U64): U64
    decreases r + 1
  {
    if r < 0 then 0
    else if exists t :: CommittedAt(s, t, r, k) then
      var t :| CommittedAt(s, t, r, k);
      Add(Sum(s, k, r - 1, deltas), deltas(t))
    else Sum(s, k, r - 1, deltas)
  }

  lemma OneCommitter(s: State, t: nat, t': nat, v: nat, k: Key)
    requires Inv(s) && CommittedAt(s, t, v, k) && CommittedAt(s, t', v, k)
    ensures t == t'
  {
    assert TxnOk(s, t) && TxnOk(s, t');
  }

  /** In every run, whatever transactions abort, wait or are resolved by others: a key that is only added
      to shows, at every version, the sum of what was committed on it up to there. */
  lemma {:induction false} IncrementsAddUp(steps: seq<Step>, k: Key, deltas: nat -> U64, r: int)
    requires OnlyAdds(steps, k, deltas)
    ensures var s := Run(Init(), steps); NumberOf(View(s, k, r)) == Some(Sum(s, k, r, deltas))
    decreases r + 1
  {
    hide Inv, Do, Run, Increment, NumberOf;
    var s := Run(Init(), steps);
    if r < 0 {
      NothingShown(s, k, r);
    } else {
      IncrementsAddUp(steps, k, deltas, r - 1);
      InitInv();
      RunKeepsInv(Init(), steps);
      if t :| CommittedAt(s, t, r, k) {
        AddedAt(steps, k, deltas, r, t);
        var t' :| CommittedAt(s, t', r, k) && Sum(s, k, r, deltas) == Add(Sum(s, k, r - 1, deltas), deltas(t'));
        OneCommitter(s, t, t', r, k);
      } else {
        NotShownAt(s, k, r);
      }
    }
  }

  lemma NothingShown(s: State, k: Key, r: int)
    requires r < 0
    ensures NumberOf(View(s, k, r)) == Some(0)
  {
  }

  lemma NotShownAt(s: State, k: Key, r: nat)
    requires Inv(s) && forall t :: !CommittedAt(s, t, r, k)
    ensures View(s, k, r) == View(s, k, r - 1)
  {
    if LogicalAt(s, k, r).Some? { VisibleIffCommitted(s, k, r, LogicalAt(s, k, r).value); }
    var shown := (u: nat) => LogicalAt(s, k, u);
    assert shown(r).None?;
  }

  lemma AddedAt(steps: seq<Step>, k: Key, deltas: nat -> U64, r: nat, t: nat)
    requires OnlyAdds(steps, k, deltas) && Inv(Run(Init(), steps)) && CommittedAt(Run(Init(), steps), t, r, k)
    requires NumberOf(View(Run(Init(), steps), k, r - 1)).Some?
    ensures var s := Run(Init(), steps);
            NumberOf(View(s, k, r)) == Some(Add(NumberOf(View(s, k, r - 1)).value, deltas(t)))
  {
    hide Inv, Do, Run, Increment, NumberOf, Add;
    var s := Run(Init(), steps);
    var prev, op := View(s, k, r - 1), s.txns[t].writes[k];
    NoLostUpdates(steps, t, r, k);
    var i :| 0 <= i < |steps| && IsRequest(steps[i], t, k, prev, op);
    assert AddsTo(steps[i], deltas);
    assert Increment(deltas(t), prev) == Some(op);
    IncrementAdds(deltas(t), prev, r);
    CommittedIsVisible(s, t, r, k);
    var shown := (u: nat) => LogicalAt(s, k, u);
    assert shown(r) == Some(Some(op.value));
  }
}
