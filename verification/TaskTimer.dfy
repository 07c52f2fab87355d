/** The task timer of the replica scheduler (schedule/scheduler.rs): a heap that keeps superseded
    entries until they surface, which behaves like a plain map from task to its latest deadline. */
module TaskTimer {
  import opened Options

  datatype Deadline = Deadline(time: int, timerId: nat, taskId: nat)

  /** `Deadline::cmp` reversed: the earliest deadline first, then the oldest timer. */
  predicate Before(a: Deadline, b: Deadline) {
    a.time < b.time || (a.time == b.time && a.timerId < b.timerId)
  }

  /** Of two timers exactly one comes first: the earlier deadline, or the older of equals. */
  lemma BeforeIsStrict(a: Deadline, b: Deadline)
    requires a.timerId != b.timerId
    ensures Before(a, b) <==> !Before(b, a)
    ensures Before(a, b) ==> a.time <= b.time
    ensures a.time == b.time ==> (Before(a, b) <==> a.timerId < b.timerId)
  {
  }

  ghost predicate Ordered(heap: seq<Deadline>) {
    forall i, j :: 0 <= i < j < |heap| ==> Before(heap[i], heap[j])
  }

  /** `BinaryHeap::push`, on the order in which the heap gives its entries back. */
  function Push(heap: seq<Deadline>, d: Deadline): (r: seq<Deadline>)
    requires Ordered(heap)
    requires forall e :: e in heap ==> e.timerId != d.timerId
    ensures Ordered(r)
    ensures forall e :: e in r <==> e in heap || e == d
  {
    if heap == [] then [d]
    else if Before(d, heap[0]) then [d] + heap
    else
      var rest := Push(heap[1..], d);
      assert heap == [heap[0]] + heap[1..];
      assert forall e :: e in rest ==> Before(heap[0], e);
      [heap[0]] + rest
  }

  datatype Op = Add(task: nat, time: int) | TakeFired(now: int)

  // ---- The plain map ----

  /** Tasks waiting for their deadline after some calls. */
  function Armed(ops: seq<Op>): map<nat, int> {
    if ops == [] then map[]
    else
      var n := |ops| - 1;
      var before := Armed(ops[..n]);
      match ops[n]
      case Add(task, time) => before[task := time]
      case TakeFired(now) => before - Due(before, now)
  }

  function Due(armed: map<nat, int>, now: int): (r: set<nat>)
    ensures forall t :: t in r <==> t in armed && armed[t] <= now
  {
    set t | t in armed && armed[t] <= now
  }

  /** The j-th call armed `task`, and nothing since has armed it again or fired it. */
  ghost predicate LastArming(ops: seq<Op>, j: int, task: nat, time: int) {
    && 0 <= j < |ops| && ops[j] == Add(task, time)
    && forall k :: j < k < |ops| ==>
         match ops[k]
         case Add(other, _) => other != task
         case TakeFired(now) => now < time
  }

  /** A task waits for a deadline exactly when that is what its last arming said and no call since
      was late enough to fire it. */
  lemma {:induction false} ArmedIsLast(ops: seq<Op>, task: nat, time: int)
    ensures task in Armed(ops) && Armed(ops)[task] == time <==> exists j :: LastArming(ops, j, task, time)
  {
    if ops != [] {
      var n := |ops| - 1;
      var p := ops[..n];
      ArmedIsLast(p, task, time);
      forall j | 0 <= j < n && LastArming(ops, j, task, time) ensures LastArming(p, j, task, time) {
        assert forall k :: j < k < n ==> p[k] == ops[k];
      }
      if task in Armed(ops) && Armed(ops)[task] == time {
        if ops[n] == Add(task, time) {
          assert LastArming(ops, n, task, time);
        } else {
          var j :| LastArming(p, j, task, time);
          assert LastArming(ops, j, task, time);
        }
      }
    }
  }

  /** What each call hands out. */
  function Outputs(ops: seq<Op>): (r: seq<set<nat>>)
    ensures |r| == |ops|
  {
    if ops == [] then []
    else
      var n := |ops| - 1;
      Outputs(ops[..n]) + [if ops[n].TakeFired? then Due(Armed(ops[..n]), ops[n].now) else {}]
  }

  lemma {:induction false} OutputAt(ops: seq<Op>, i: nat)
    requires i < |ops|
    ensures Outputs(ops)[i] == if ops[i].TakeFired? then Due(Armed(ops[..i]), ops[i].now) else {}
  {
    var n := |ops| - 1;
    if i < n {
      OutputAt(ops[..n], i);
      assert ops[..n][..i] == ops[..i];
    }
  }

  /** The j-th call armed `task` and the i-th is the first that may fire this arming. */
  ghost predicate Fires(ops: seq<Op>, j: int, i: int, task: nat) {
    && 0 <= j < i < |ops| && ops[i].TakeFired? && ops[j].Add? && ops[j].time <= ops[i].now
    && LastArming(ops[..i], j, task, ops[j].time)
  }

  /** A call hands out exactly those tasks whose latest deadline is due. */
  lemma FiredExactly(ops: seq<Op>, i: nat, task: nat)
    requires i < |ops|
    ensures task in Outputs(ops)[i] <==> exists j :: Fires(ops, j, i, task)
  {
    OutputAt(ops, i);
    var p := ops[..i];
    if task in Outputs(ops)[i] {
      ArmedIsLast(p, task, Armed(p)[task]);
      var j :| LastArming(p, j, task, Armed(p)[task]);
      assert Fires(ops, j, i, task);
    }
    if j :| Fires(ops, j, i, task) {
      ArmedIsLast(p, task, ops[j].time);
    }
  }

  /** One arming fires at most once. */
  lemma FiresOnce(ops: seq<Op>, j: int, i1: int, i2: int, task: nat)
    requires Fires(ops, j, i1, task) && Fires(ops, j, i2, task)
    ensures i1 == i2
  {
  }

  // ---- The heap ----

  /** The heap and the index stand for the map `armed`. */
  ghost predicate Stands(heap: seq<Deadline>, indexes: map<nat, nat>, next: nat, armed: map<nat, int>) {
    && Ordered(heap)
    && (forall e :: e in heap ==> e.timerId < next)
    && (forall e, f :: e in heap && f in heap && e.timerId == f.timerId ==> e == f)
    && indexes.Keys == armed.Keys
    && (forall t :: t in indexes ==> Deadline(armed[t], indexes[t], t) in heap)
  }

  lemma PushStands(heap: seq<Deadline>, indexes: map<nat, nat>, next: nat, armed: map<nat, int>, task: nat, time: int)
    requires Stands(heap, indexes, next, armed)
    ensures Stands(Push(heap, Deadline(time, next, task)), indexes[task := next], next + 1, armed[task := time])
  {
  }

  /** The entry on top is live exactly when it carries the map's deadline of its task. */
  lemma TopIsLive(heap: seq<Deadline>, indexes: map<nat, nat>, next: nat, armed: map<nat, int>)
    requires Stands(heap, indexes, next, armed) && heap != []
    ensures var top := heap[0];
            top.taskId in indexes && indexes[top.taskId] == top.timerId ==> armed[top.taskId] == top.time
    ensures forall t :: t in armed ==> heap[0].time <= armed[t]
  {
  }

  lemma PopStands(heap: seq<Deadline>, indexes: map<nat, nat>, next: nat, armed: map<nat, int>)
    requires Stands(heap, indexes, next, armed) && heap != []
    ensures var t := heap[0].taskId;
            if t in indexes && indexes[t] == heap[0].timerId
            then Stands(heap[1..], indexes - {t}, next, armed - {t})
            else Stands(heap[1..], indexes, next, armed)
  {
  }

  class Timer {
    var nextTimerId: nat
    var heap: seq<Deadline>
    var indexes: map<nat, nat>

    constructor ()
      ensures Refines(map[])
    {
      nextTimerId, heap, indexes := 0, [], map[];
    }

    ghost predicate Refines(armed: map<nat, int>)
      reads this
    {
      Stands(heap, indexes, nextTimerId, armed)
    }

    /** `add`: a task waits for this deadline, whatever it waited for before. */
    method Add(task: nat, time: int, ghost armed: map<nat, int>)
      requires Refines(armed)
      modifies this
      ensures Refines(armed[task := time])
    {
      PushStands(heap, indexes, nextTimerId, armed, task, time);
      var timerId := nextTimerId;
      nextTimerId := nextTimerId + 1;
      indexes := indexes[task := timerId];
      heap := Push(heap, Deadline(time, timerId, task));
    }

    /** `timeout`: when to wake up. Never later than the earliest deadline, and no wake-up only
        if no task waits. */
    method WakeUp(ghost armed: map<nat, int>) returns (at: Option<int>)
      requires Refines(armed)
      ensures at.None? ==> armed == map[]
      ensures at.Some? ==> forall t :: t in armed ==> at.value <= armed[t]
      ensures at.None? <==> heap == []
      ensures at.Some? ==> exists e :: e in heap && e.time == at.value
    {
      if heap == [] {
        at := None;
      } else {
        TopIsLive(heap, indexes, nextTimerId, armed);
        at := Some(heap[0].time);
      }
    }

    /** `take_fired_tasks`: exactly those tasks that are due, which then no longer wait; no entry
        that is due is left behind. */
    method TakeFiredTasks(now: int, ghost armed: map<nat, int>) returns (fired: set<nat>)
      requires Refines(armed)
      modifies this
      ensures fired == Due(armed, now)
      ensures Refines(armed - fired)
      ensures forall e :: e in heap ==> now < e.time
    {
      hide Stands, Ordered;
      fired := {};
      assert armed - fired == armed;
      while heap != []
        invariant fired <= Due(armed, now) && Refines(armed - fired)
        decreases |heap|
      {
        var top := heap[0];
        TopIsLive(heap, indexes, nextTimerId, armed - fired);
        PopStands(heap, indexes, nextTimerId, armed - fired);
        if top.time > now {
          break;
        }
        if top.taskId in indexes && indexes[top.taskId] == top.timerId {
          LiveIsArmed(heap, indexes, nextTimerId, armed - fired, top.taskId);
          assert armed - fired - {top.taskId} == armed - (fired + {top.taskId});
          indexes := indexes - {top.taskId};
          fired := fired + {top.taskId};
        }
        heap := heap[1..];
      }
      NoneDue(heap, indexes, nextTimerId, armed - fired, now);
      assert forall t :: t in armed - fired ==> now < armed[t];
    }

    /** Any sequence of calls hands out what the plain map hands out. */
    method Drive(ops: seq<Op>) returns (outputs: seq<set<nat>>)
      requires Refines(map[])
      modifies this
      ensures outputs == Outputs(ops) && Refines(Armed(ops))
    {
      hide Stands;
      outputs := [];
      for i := 0 to |ops|
        invariant outputs == Outputs(ops[..i]) && Refines(Armed(ops[..i]))
      {
        assert ops[..i + 1][..i] == ops[..i];
        var out: set<nat> := {};
        match ops[i] {
          case Add(task, time) => Add(task, time, Armed(ops[..i]));
          case TakeFired(now) => out := TakeFiredTasks(now, Armed(ops[..i]));
        }
        outputs := outputs + [out];
      }
      assert ops[..|ops|] == ops;
    }
  }

  lemma LiveIsArmed(heap: seq<Deadline>, indexes: map<nat, nat>, next: nat, armed: map<nat, int>, t: nat)
    requires Stands(heap, indexes, next, armed) && t in indexes
    ensures t in armed
  {
  }

  lemma NoneDue(heap: seq<Deadline>, indexes: map<nat, nat>, next: nat, armed: map<nat, int>, now: int)
    requires Stands(heap, indexes, next, armed) && (heap == [] || now < heap[0].time)
    ensures forall t :: t in armed ==> now < armed[t]
    ensures forall e :: e in heap ==> now < e.time
  {
  }
}
