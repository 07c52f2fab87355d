/** Allocation of transaction ids by the root leaders (root/mod.rs, root/schema.rs).

    Each leader hands out ids from `next` by compare-and-exchange, never beyond `max`; `max` is
    raised by a bumper that first persists the new ceiling. A new leader starts at the persisted
    ceiling. Everything runs concurrently: the steps below are the atomic actions, in any order. */
module TxnIds {
  import opened Options
  import opened Bytes

  const BUMP: nat := 5_000_000_000

  /** Where a bump of the ceiling stands. */
  datatype Bump = Idle | Computed(value: nat) | Persisted(value: nat)

  /** `RootCore`. `stopped`: its bumper has ended after an error, or was cancelled on drop. */
  datatype Leader = Leader(start: nat, next: nat, max: nat, bump: Bump, stopped: bool)

  /** Where a call of `alloc_txn_id` stands. */
  datatype Phase = Entered | LoadedNext(next: nat) | LoadedBoth(next: nat, max: nat)
  datatype Call = Call(leader: nat, num: nat, phase: Phase)

  datatype Grant = Grant(leader: nat, first: nat, num: nat) {
    function End(): nat { first + num }
  }

  /** `ceiling` is the persisted value; only the last leader can still persist. */
  datatype System = System(ceiling: nat, leaders: seq<Leader>, calls: map<nat, Call>, grants: seq<Grant>)

  datatype Step =
    | TakeOver
    | ComputeBump(l: nat, clock: nat)
    | PersistBump(l: nat)
    | LoseBump(l: nat)          // persisted, but the bumper sees an error or is cancelled
    | FailBump(l: nat)          // not persisted
    | PublishBump(l: nat)
    | DropLeader(l: nat)
    | Enter(c: nat, l: nat, num: nat)
    | LoadNext(c: nat)
    | LoadMax(c: nat)
    | Retry(c: nat)
    | Exchange(c: nat)

  /** 64-bit addition as the machine does it. */
  function Add64(a: nat, b: nat): nat { (a + b) % TWO_64 }

  predicate AtLeader(s: System, l: nat) { l < |s.leaders| }

  predicate AtCall(s: System, c: nat) { c in s.calls && s.calls[c].leader < |s.leaders| }

  predicate Enabled(s: System, step: Step) {
    match step
    case TakeOver => true
    case ComputeBump(l, _) => AtLeader(s, l) && s.leaders[l].bump == Idle && !s.leaders[l].stopped
    case PersistBump(l) => l + 1 == |s.leaders| && s.leaders[l].bump.Computed?
    case LoseBump(l) => l + 1 == |s.leaders| && s.leaders[l].bump.Computed?
    case FailBump(l) => AtLeader(s, l) && s.leaders[l].bump.Computed?
    case PublishBump(l) => AtLeader(s, l) && s.leaders[l].bump.Persisted?
    case DropLeader(l) => AtLeader(s, l)
    case Enter(c, l, _) => AtLeader(s, l) && c !in s.calls
    case LoadNext(c) => AtCall(s, c) && s.calls[c].phase.Entered?
    case LoadMax(c) => AtCall(s, c) && s.calls[c].phase.LoadedNext?
    case Retry(c) =>
      && AtCall(s, c) && s.calls[c].phase.LoadedBoth?
      && Add64(s.calls[c].phase.next, s.calls[c].num) > s.calls[c].phase.max
    case Exchange(c) =>
      && AtCall(s, c) && s.calls[c].phase.LoadedBoth?
      && Add64(s.calls[c].phase.next, s.calls[c].num) <= s.calls[c].phase.max
  }

  function SetLeader(s: System, l: nat, leader: Leader): System
    requires l < |s.leaders|
  {
    s.(leaders := s.leaders[l := leader])
  }

  function Do(s: System, step: Step): System
    requires Enabled(s, step)
  {
    match step
    case TakeOver => s.(leaders := s.leaders + [Leader(s.ceiling, s.ceiling, s.ceiling, Idle, false)])
    case ComputeBump(l, clock) =>
      var max := s.leaders[l].max;
      SetLeader(s, l, s.leaders[l].(bump := Computed((if max < clock then clock else max) + BUMP)))
    case PersistBump(l) =>
      var v := s.leaders[l].bump.value;
      SetLeader(s, l, s.leaders[l].(bump := Persisted(v))).(ceiling := v)
    case LoseBump(l) =>
      var v := s.leaders[l].bump.value;
      SetLeader(s, l, s.leaders[l].(bump := Idle, stopped := true)).(ceiling := v)
    case FailBump(l) => SetLeader(s, l, s.leaders[l].(bump := Idle, stopped := true))
    case PublishBump(l) => SetLeader(s, l, s.leaders[l].(max := s.leaders[l].bump.value, bump := Idle))
    case DropLeader(l) => SetLeader(s, l, s.leaders[l].(max := 0, stopped := true))
    case Enter(c, l, num) => s.(calls := s.calls[c := Call(l, num, Entered)])
    case LoadNext(c) =>
      var call := s.calls[c];
      s.(calls := s.calls[c := call.(phase := LoadedNext(s.leaders[call.leader].next))])
    case LoadMax(c) =>
      var call := s.calls[c];
      var max := s.leaders[call.leader].max;
      if max == 0 then s.(calls := s.calls - {c})  // NotLeader
      else s.(calls := s.calls[c := call.(phase := LoadedBoth(call.phase.next, max))])
    case Retry(c) => s.(calls := s.calls[c := s.calls[c].(phase := Entered)])
    case Exchange(c) =>
      var call := s.calls[c];
      var leader := s.leaders[call.leader];
      if leader.next == call.phase.next then
        SetLeader(s, call.leader, leader.(next := Add64(leader.next, call.num)))
        .(calls := s.calls - {c}, grants := s.grants + [Grant(call.leader, call.phase.next, call.num)])
      else s.(calls := s.calls[c := call.(phase := Entered)])
  }

  // ---------------------------------------------------------------- invariant

  /** The ceiling under which leader `l` works: its successor started there. */
  function CeilingOf(s: System, l: nat): nat
    requires l < |s.leaders|
  {
    if l + 1 == |s.leaders| then s.ceiling else s.leaders[l + 1].start
  }

  predicate LeaderInv(s: System, l: nat)
    requires l < |s.leaders|
  {
    var a := s.leaders[l];
    && a.start <= a.next <= CeilingOf(s, l) && a.max <= CeilingOf(s, l)
    && (a.bump.Persisted? ==> a.bump.value <= CeilingOf(s, l))
    && (l + 1 == |s.leaders| ==>
          && (a.bump.Computed? ==> s.ceiling <= a.bump.value)
          && (a.bump.Persisted? ==> s.ceiling == a.bump.value)
          && (a.bump.Idle? && !a.stopped ==> s.ceiling == a.max))
  }

  predicate CallInv(s: System, call: Call) {
    && call.leader < |s.leaders|
    && var a := s.leaders[call.leader];
    && (call.phase.LoadedNext? ==> a.start <= call.phase.next <= a.next)
    && (call.phase.LoadedBoth? ==>
          a.start <= call.phase.next <= a.next && call.phase.max <= CeilingOf(s, call.leader))
  }

  predicate GrantInv(s: System, g: Grant) {
    g.leader < |s.leaders| && s.leaders[g.leader].start <= g.first && g.End() <= s.leaders[g.leader].next
  }

  predicate Inv(s: System) {
    && (forall l :: 0 <= l < |s.leaders| ==> LeaderInv(s, l))
    && (forall c :: c in s.calls ==> CallInv(s, s.calls[c]))
    && (forall i :: 0 <= i < |s.grants| ==> GrantInv(s, s.grants[i]))
    && (forall i, j :: 0 <= i < j < |s.grants| && s.grants[i].leader == s.grants[j].leader ==>
          s.grants[i].End() <= s.grants[j].first)
  }

  /** The addition of a granted request does not wrap around. */
  predicate NoWrap(s: System, step: Step) {
    step.Exchange? && AtCall(s, step.c) && s.calls[step.c].phase.LoadedBoth? ==>
      s.calls[step.c].phase.next + s.calls[step.c].num < TWO_64
  }

  lemma StepKeepsInv(s: System, step: Step)
    requires Inv(s) && Enabled(s, step) && NoWrap(s, step)
    ensures Inv(Do(s, step))
  {
    match step
    case TakeOver => TakeOverKeepsInv(s);
    case Exchange(c) => ExchangeKeepsInv(s, c);
    case Enter(_, _, _) => CallStepKeepsInv(s, step);
    case LoadNext(_) => CallStepKeepsInv(s, step);
    case LoadMax(_) => CallStepKeepsInv(s, step);
    case Retry(_) => CallStepKeepsInv(s, step);
    case _ =>
      var t := Do(s, step);
      assert LeaderInv(s, step.l);
      LeaderStepKeepsInv(s, step.l, t.leaders[step.l], t.ceiling);
  }

  lemma TakeOverKeepsInv(s: System)
    requires Inv(s)
    ensures Inv(Do(s, TakeOver))
  {
    var t := Do(s, TakeOver);
    forall l | 0 <= l < |t.leaders| ensures LeaderInv(t, l) {
      if l < |s.leaders| { assert LeaderInv(s, l); }
    }
    forall c | c in t.calls ensures CallInv(t, t.calls[c]) {
      assert CallInv(s, s.calls[c]);
    }
    forall i | 0 <= i < |t.grants| ensures GrantInv(t, t.grants[i]) {
      assert GrantInv(s, s.grants[i]);
    }
  }

  /** A step of one leader that leaves its range alone and does not lower the ceiling. */
  lemma LeaderStepKeepsInv(s: System, l: nat, a: Leader, ceiling: nat)
    requires Inv(s) && l < |s.leaders|
    requires a.start == s.leaders[l].start && a.next == s.leaders[l].next
    requires s.ceiling <= ceiling && (s.ceiling != ceiling ==> l + 1 == |s.leaders|)
    requires LeaderInv(SetLeader(s, l, a).(ceiling := ceiling), l)
    ensures Inv(SetLeader(s, l, a).(ceiling := ceiling))
  {
    var t := SetLeader(s, l, a).(ceiling := ceiling);
    forall m | 0 <= m < |t.leaders| ensures LeaderInv(t, m) {
      assert LeaderInv(s, m);
    }
    forall c | c in t.calls ensures CallInv(t, t.calls[c]) {
      assert CallInv(s, s.calls[c]);
    }
    forall i | 0 <= i < |t.grants| ensures GrantInv(t, t.grants[i]) {
      assert GrantInv(s, s.grants[i]);
    }
  }

  lemma CallStepKeepsInv(s: System, step: Step)
    requires Inv(s) && Enabled(s, step)
    requires step.Enter? || step.LoadNext? || step.LoadMax? || step.Retry?
    ensures Inv(Do(s, step))
  {
    var t := Do(s, step);
    assert t.leaders == s.leaders && t.grants == s.grants && t.ceiling == s.ceiling;
    forall l | 0 <= l < |t.leaders| ensures LeaderInv(t, l) {
      assert LeaderInv(s, l);
    }
    forall c | c in t.calls ensures CallInv(t, t.calls[c]) {
      if c in s.calls { assert CallInv(s, s.calls[c]) && LeaderInv(s, s.calls[c].leader); }
    }
    forall i | 0 <= i < |t.grants| ensures GrantInv(t, t.grants[i]) {
      assert GrantInv(s, s.grants[i]);
    }
  }

  lemma ExchangeKeepsInv(s: System, c: nat)
    requires Inv(s) && Enabled(s, Exchange(c)) && NoWrap(s, Exchange(c))
    ensures Inv(Do(s, Exchange(c)))
  {
    var t := Do(s, Exchange(c));
    var call := s.calls[c];
    assert CallInv(s, call);
    forall l | 0 <= l < |t.leaders| ensures LeaderInv(t, l) {
      assert LeaderInv(s, l);
    }
    forall i, j | 0 <= i < j < |t.grants| && t.grants[i].leader == t.grants[j].leader
      ensures t.grants[i].End() <= t.grants[j].first
    {
      assert GrantInv(s, s.grants[i]);
    }
  }

  /** A bump makes room above both the ceiling in force and the clock, and publishes no more than was
      persisted. */
  lemma BumpMakesRoom(s: System, l: nat, clock: nat)
    requires l + 1 == |s.leaders| && s.leaders[l].bump == Idle && !s.leaders[l].stopped
    ensures var s1 := Do(s, ComputeBump(l, clock));
            var s2 := Do(s1, PersistBump(l));
            var s3 := Do(s2, PublishBump(l));
            && s3.ceiling == s3.leaders[l].max && s2.ceiling == s3.ceiling && s2.leaders[l].max == s.leaders[l].max
            && clock + BUMP <= s3.ceiling && s.leaders[l].max + BUMP <= s3.ceiling
            && (s3.ceiling == clock + BUMP || s3.ceiling == s.leaders[l].max + BUMP)
            && s3.leaders[l].next == s.leaders[l].next && s3.grants == s.grants
  {
  }

  /** A leader that was dropped refuses every call that has not loaded its ceiling yet. */
  lemma DroppedLeaderRefuses(s: System, l: nat, c: nat)
    requires l < |s.leaders| && AtCall(s, c) && s.calls[c].leader == l && s.calls[c].phase.LoadedNext?
    ensures var s' := Do(Do(s, DropLeader(l)), LoadMax(c)); c !in s'.calls && s'.grants == s.grants
  {
  }

  // ---------------------------------------------------------------- runs

  function Start(ceiling: nat): System { System(ceiling, [], map[], []) }

  predicate RunEnabled(s: System, steps: seq<Step>)
    decreases |steps|
  {
    steps == [] || (Enabled(s, steps[0]) && NoWrap(s, steps[0]) && RunEnabled(Do(s, steps[0]), steps[1..]))
  }

  function Run(s: System, steps: seq<Step>): System
    requires RunEnabled(s, steps)
    decreases |steps|
  {
    if steps == [] then s else Run(Do(s, steps[0]), steps[1..])
  }

  lemma {:induction false} RunKeepsInv(s: System, steps: seq<Step>)
    requires Inv(s) && RunEnabled(s, steps)
    ensures Inv(Run(s, steps))
    decreases |steps|
  {
    if steps != [] {
      StepKeepsInv(s, steps[0]);
      RunKeepsInv(Do(s, steps[0]), steps[1..]);
    }
  }

  /** Leaders start in ascending order, each at or above everything its predecessors may grant. */
  lemma {:induction false} LeadersAscend(s: System, l: nat, m: nat)
    requires Inv(s) && l < m < |s.leaders|
    ensures s.leaders[l].next <= s.leaders[m].start
    decreases m - l
  {
    assert LeaderInv(s, l) && LeaderInv(s, m - 1);
    if l + 1 < m { LeadersAscend(s, l, m - 1); }
  }

  /** Two grants never overlap, over any interleaving of allocations, bumps, leader changes and
      late answers; and an id granted by a later leader is above every id of an earlier one. */
  lemma GrantsNeverOverlap(ceiling: nat, steps: seq<Step>, i: nat, j: nat)
    requires RunEnabled(Start(ceiling), steps)
    requires i < |Run(Start(ceiling), steps).grants| && j < |Run(Start(ceiling), steps).grants|
    ensures var gs := Run(Start(ceiling), steps).grants;
            && (i != j ==> gs[i].End() <= gs[j].first || gs[j].End() <= gs[i].first)
            && (gs[i].leader < gs[j].leader ==> gs[i].End() <= gs[j].first)
            && (i < j && gs[i].leader <= gs[j].leader ==> gs[i].End() <= gs[j].first)
            && ceiling <= gs[i].first
  {
    RunKeepsInv(Start(ceiling), steps);
    var s := Run(Start(ceiling), steps);
    assert GrantInv(s, s.grants[i]) && GrantInv(s, s.grants[j]);
    if s.grants[i].leader < s.grants[j].leader { LeadersAscend(s, s.grants[i].leader, s.grants[j].leader); }
    if s.grants[j].leader < s.grants[i].leader { LeadersAscend(s, s.grants[j].leader, s.grants[i].leader); }
    StartsAbove(ceiling, Start(ceiling), steps);
  }

  ghost predicate AllAbove(ceiling: nat, s: System) {
    Inv(s) && ceiling <= s.ceiling && forall l :: 0 <= l < |s.leaders| ==> ceiling <= s.leaders[l].start
  }

  /** Of two grants, the one made later has the larger ids exactly if it was not made by an earlier
      leader than the other. */
  lemma AscendingIff(ceiling: nat, steps: seq<Step>, i: nat, j: nat)
    requires RunEnabled(Start(ceiling), steps)
    requires i < j < |Run(Start(ceiling), steps).grants|
    requires var gs := Run(Start(ceiling), steps).grants; gs[i].num > 0 && gs[j].num > 0
    ensures var gs := Run(Start(ceiling), steps).grants;
            gs[i].first < gs[j].first <==> gs[i].leader <= gs[j].leader
  {
    GrantsNeverOverlap(ceiling, steps, i, j);
    GrantsNeverOverlap(ceiling, steps, j, i);
  }

  lemma {:induction false} StartsAbove(ceiling: nat, s: System, steps: seq<Step>)
    requires AllAbove(ceiling, s) && RunEnabled(s, steps)
    ensures AllAbove(ceiling, Run(s, steps))
    decreases |steps|
  {
    if steps != [] {
      StepKeepsInv(s, steps[0]);
      CeilingGrows(s, steps[0]);
      StartsAbove(ceiling, Do(s, steps[0]), steps[1..]);
    }
  }

  /** The persisted ceiling never decreases, although it is overwritten without a condition. */
  lemma CeilingGrows(s: System, step: Step)
    requires Inv(s) && Enabled(s, step)
    ensures s.ceiling <= Do(s, step).ceiling
    ensures forall l :: 0 <= l < |s.leaders| ==> Do(s, step).leaders[l].start == s.leaders[l].start
    ensures |s.leaders| < |Do(s, step).leaders| ==> Do(s, step).leaders[|s.leaders|].start == s.ceiling
    ensures |s.leaders| <= |Do(s, step).leaders| <= |s.leaders| + 1
  {
    if step.PersistBump? || step.LoseBump? { assert LeaderInv(s, step.l); }
  }

  // ---------------------------------------------------------------- limits of the promise

  /** A granted exchange stays under the ceiling exactly when its addition does not wrap. */
  lemma ExchangeUnderCeiling(s: System, c: nat)
    requires Inv(s) && Enabled(s, Exchange(c)) && s.ceiling < TWO_64
    requires s.calls[c].num < TWO_64
    ensures var call := s.calls[c];
            NoWrap(s, Exchange(c)) <==> call.phase.next + call.num <= CeilingOf(s, call.leader)
  {
    var call := s.calls[c];
    assert CallInv(s, call);
    CeilingBound(s, call.leader);
  }

  lemma {:induction false} CeilingBound(s: System, l: nat)
    requires Inv(s) && l < |s.leaders|
    ensures CeilingOf(s, l) <= s.ceiling
    decreases |s.leaders| - l
  {
    if l + 1 < |s.leaders| {
      assert LeaderInv(s, l + 1);
      CeilingBound(s, l + 1);
    }
  }

  function Execute(s: System, steps: seq<Step>): Option<System>
    decreases |steps|
  {
    if steps == [] then Some(s)
    else if Enabled(s, steps[0]) then Execute(Do(s, steps[0]), steps[1..])
    else None
  }

  /** The only leader, serving under a published ceiling. */
  function Serving(next: nat, grants: seq<Grant>): System {
    System(100 + BUMP, [Leader(100, next, 100 + BUMP, Idle, false)], map[], grants)
  }

  function Setup(): seq<Step> { [TakeOver, ComputeBump(0, 0), PersistBump(0), PublishBump(0)] }

  lemma SetupServes()
    ensures Execute(Start(100), Setup()) == Some(Serving(100, []))
  {
    var l0 := Leader(100, 100, 100, Idle, false);
    var s1 := System(100, [l0], map[], []);
    assert Do(Start(100), TakeOver) == s1;
    var s2 := System(100, [l0.(bump := Computed(100 + BUMP))], map[], []);
    assert Do(s1, ComputeBump(0, 0)) == s2;
    var s3 := System(100 + BUMP, [l0.(bump := Persisted(100 + BUMP))], map[], []);
    assert Do(s2, PersistBump(0)) == s3;
    assert Do(s3, PublishBump(0)) == Serving(100, []);
    var setup := Setup();
    assert setup[1..] == [ComputeBump(0, 0), PersistBump(0), PublishBump(0)];
    assert setup[1..][1..] == [PersistBump(0), PublishBump(0)];
    assert setup[1..][1..][1..] == [PublishBump(0)];
    assert Execute(Serving(100, []), []) == Some(Serving(100, []));
    assert Execute(s3, [PublishBump(0)]) == Some(Serving(100, []));
    assert Execute(s2, [PersistBump(0), PublishBump(0)]) == Some(Serving(100, []));
    assert Execute(s1, setup[1..]) == Some(Serving(100, []));
  }

  function CallSteps(c: nat, num: nat): seq<Step> { [Enter(c, 0, num), LoadNext(c), LoadMax(c), Exchange(c)] }

  /** With a request that wraps around, the ids 100 to 109 are granted twice. */
  lemma WrappingRequestOverlaps()
    ensures Execute(Start(100), Setup() + (CallSteps(7, 50) + (CallSteps(7, TWO_64 - 50) + CallSteps(7, 10))))
            == Some(Serving(110, [Grant(0, 100, 50), Grant(0, 150, TWO_64 - 50), Grant(0, 100, 10)]))
  {
    hide Execute, CallSteps, Setup;
    var g1, g2, g3 := Grant(0, 100, 50), Grant(0, 150, TWO_64 - 50), Grant(0, 100, 10);
    SetupServes();
    OneCall(Serving(100, []), 7, 50, Serving(150, [g1]));
    OneCall(Serving(150, [g1]), 7, TWO_64 - 50, Serving(100, [g1, g2]));
    OneCall(Serving(100, [g1, g2]), 7, 10, Serving(110, [g1, g2, g3]));
    ExecuteConcat(Start(100), Setup(), CallSteps(7, 50) + (CallSteps(7, TWO_64 - 50) + CallSteps(7, 10)));
    ExecuteConcat(Serving(100, []), CallSteps(7, 50), CallSteps(7, TWO_64 - 50) + CallSteps(7, 10));
    ExecuteConcat(Serving(150, [g1]), CallSteps(7, TWO_64 - 50), CallSteps(7, 10));
  }

  /** Running and executing are the same where running is defined. */
  lemma {:induction false} RunIsExecute(s: System, steps: seq<Step>)
    requires RunEnabled(s, steps)
    ensures Execute(s, steps) == Some(Run(s, steps))
    decreases |steps|
  {
    if steps != [] { RunIsExecute(Do(s, steps[0]), steps[1..]); }
  }

  lemma {:induction false} ExecuteConcat(s: System, a: seq<Step>, b: seq<Step>)
    ensures Execute(s, a + b) == (var m := Execute(s, a); if m.None? then None else Execute(m.value, b))
    decreases |a|
  {
    if a == [] {
      assert a + b == b;
    } else {
      assert (a + b)[1..] == a[1..] + b;
      if Enabled(s, a[0]) { ExecuteConcat(Do(s, a[0]), a[1..], b); }
    }
  }

  /** A call that runs undisturbed on the only leader. */
  lemma OneCall(s: System, c: nat, num: nat, t: System)
    requires |s.leaders| == 1 && s.calls == map[] && s.leaders[0].max > 0
    requires Add64(s.leaders[0].next, num) <= s.leaders[0].max
    requires t == s.(leaders := [s.leaders[0].(next := Add64(s.leaders[0].next, num))],
                     grants := s.grants + [Grant(0, s.leaders[0].next, num)])
    ensures Execute(s, CallSteps(c, num)) == Some(t)
  {
    var a := s.leaders[0];
    var s1 := s.(calls := map[c := Call(0, num, Entered)]);
    assert Do(s, Enter(c, 0, num)) == s1;
    var s2 := s.(calls := map[c := Call(0, num, LoadedNext(a.next))]);
    assert Do(s1, LoadNext(c)) == s2;
    var s3 := s.(calls := map[c := Call(0, num, LoadedBoth(a.next, a.max))]);
    assert Do(s2, LoadMax(c)) == s3;
    assert Do(s3, Exchange(c)) == t;
    var steps := CallSteps(c, num);
    assert steps[1..] == [LoadNext(c), LoadMax(c), Exchange(c)];
    assert steps[1..][1..] == [LoadMax(c), Exchange(c)];
    assert steps[1..][1..][1..] == [Exchange(c)];
    assert Execute(t, []) == Some(t);
    assert Execute(s3, [Exchange(c)]) == Some(t);
    assert Execute(s2, [LoadMax(c), Exchange(c)]) == Some(t);
    assert Execute(s1, steps[1..]) == Some(t);
  }

  lemma Then(s: System, steps: seq<Step>, m: System, step: Step, t: System)
    requires Execute(s, steps) == Some(m) && Enabled(m, step) && Do(m, step) == t
    ensures Execute(s, steps + [step]) == Some(t)
  {
    ExecuteConcat(s, steps, [step]);
    assert Execute(m, [step]) == Execute(t, [step][1..]);
  }

  /** A second leader serves, while a call that has loaded both numbers of the first is under way. */
  function Deposed(): System {
    System(100 + BUMP + BUMP,
           [Leader(100, 100, 100 + BUMP, Idle, false), Leader(100 + BUMP, 100 + BUMP, 100 + BUMP + BUMP, Idle, false)],
           map[7 := Call(0, 1, LoadedBoth(100, 100 + BUMP))], [])
  }

  lemma CallOutlivesLeader() returns (steps: seq<Step>)
    ensures Execute(Start(100), steps) == Some(Deposed())
  {
    SetupServes();
    hide Execute;
    var s;
    steps, s := Setup(), Serving(100, []);
    steps, s := Extend(steps, s, Enter(7, 0, 1));
    steps, s := Extend(steps, s, LoadNext(7));
    steps, s := Extend(steps, s, LoadMax(7));
    steps, s := Extend(steps, s, TakeOver);
    steps, s := Extend(steps, s, ComputeBump(1, 0));
    steps, s := Extend(steps, s, PersistBump(1));
    steps, s := Extend(steps, s, PublishBump(1));
    assert s == Deposed();
  }

  /** A deposed leader that answers late hands out a smaller id than one granted before. */
  lemma LateAnswerIsSmaller() returns (steps: seq<Step>, s: System)
    ensures Execute(Start(100), steps) == Some(s)
    ensures s.grants == [Grant(1, 100 + BUMP, 1), Grant(0, 100, 1)]
  {
    hide Execute;
    steps := CallOutlivesLeader();
    steps, s := Extend(steps, Deposed(), Enter(8, 1, 1));
    steps, s := Extend(steps, s, LoadNext(8));
    steps, s := Extend(steps, s, LoadMax(8));
    steps, s := Extend(steps, s, Exchange(8));
    steps, s := Extend(steps, s, Exchange(7));
  }

  lemma Extend(steps: seq<Step>, s: System, step: Step) returns (steps': seq<Step>, t: System)
    requires Execute(Start(100), steps) == Some(s) && Enabled(s, step)
    ensures steps' == steps + [step] && t == Do(s, step) && Execute(Start(100), steps') == Some(t)
  {
    steps', t := steps + [step], Do(s, step);
    Then(Start(100), steps, s, step, t);
  }
}
