/** What the root believes to be under way on each node (root/mod.rs, `OngoingStats`): a view per
    node that is rebuilt from the latest schedule state of every group. */
module OngoingStats {
  import opened Options

  /** A schedule state reported for a group; replicas are named by their nodes. */
  datatype ScheduleState = ScheduleState(group: nat, epoch: nat, incoming: seq<nat>, outgoing: seq<nat>)
  datatype GroupDelta = GroupDelta(epoch: nat, incoming: seq<nat>, outgoing: seq<nat>)

  // ---- Sums over finite maps, in any order ----

  ghost function Total(m: map<nat, int>): int
    decreases |m|
  {
    if m == map[] then 0 else var k :| k in m; m[k] + Total(m - {k})
  }

  lemma {:induction false} TotalAny(m: map<nat, int>, k: nat)
    requires k in m
    ensures Total(m) == m[k] + Total(m - {k})
    decreases |m|
  {
    var c :| c in m && Total(m) == m[c] + Total(m - {c});
    if c != k {
      TotalAny(m - {c}, k);
      TotalAny(m - {k}, c);
      assert m - {c} - {k} == m - {k} - {c};
    }
  }

  function At(view: map<nat, int>, n: nat): int {
    if n in view then view[n] else 0
  }

  /** One replica more or less on a node. */
  function Bump(view: map<nat, int>, n: nat, step: int): map<nat, int> {
    view[n := At(view, n) + step]
  }

  lemma BumpTotal(view: map<nat, int>, n: nat, step: int)
    ensures Total(Bump(view, n, step)) == Total(view) + step
  {
    var r := Bump(view, n, step);
    TotalAny(r, n);
    if n in view {
      TotalAny(view, n);
      assert r - {n} == view - {n};
    } else {
      assert r - {n} == view;
    }
  }

  // ---- What the updates say ----

  function Count(nodes: seq<nat>, n: nat): nat {
    if nodes == [] then 0 else Count(nodes[..|nodes| - 1], n) + if nodes[|nodes| - 1] == n then 1 else 0
  }

  lemma {:induction false} CountIs(nodes: seq<nat>, n: nat)
    ensures Count(nodes, n) == multiset(nodes)[n]
  {
    if nodes != [] {
      CountIs(nodes[..|nodes| - 1], n);
      assert nodes == nodes[..|nodes| - 1] + [nodes[|nodes| - 1]];
    }
  }

  /** Replicas a group is about to add to a node, less those it is about to remove from it. */
  function Net(d: GroupDelta, n: nat): int {
    Count(d.incoming, n) - Count(d.outgoing, n)
  }

  ghost function Nets(raw: map<nat, GroupDelta>, n: nat): map<nat, int> {
    map g | g in raw :: Net(raw[g], n)
  }

  ghost function Moves(raw: map<nat, GroupDelta>): map<nat, int> {
    map g | g in raw :: |raw[g].incoming| - |raw[g].outgoing|
  }

  /** The i-th state is the first of those of group `g` with the highest epoch. */
  ghost predicate Newest(h: seq<ScheduleState>, i: int, g: nat) {
    && 0 <= i < |h| && h[i].group == g
    && (forall j :: 0 <= j < |h| && h[j].group == g ==> h[j].epoch <= h[i].epoch)
    && (forall j :: 0 <= j < i && h[j].group == g ==> h[j].epoch < h[i].epoch)
  }

  function DeltaOf(s: ScheduleState): GroupDelta {
    GroupDelta(s.epoch, s.incoming, s.outgoing)
  }

  /** The delta of a group, kept state by state. */
  function Kept(h: seq<ScheduleState>, g: nat): Option<GroupDelta> {
    if h == [] then None
    else
      var n := |h| - 1;
      var before := Kept(h[..n], g);
      if h[n].group != g || (before.Some? && before.value.epoch >= h[n].epoch) then before else Some(DeltaOf(h[n]))
  }

  /** The kept delta is that of the newest state, and nothing is kept only if none was received. */
  lemma {:induction false} KeptIsNewest(h: seq<ScheduleState>, g: nat) returns (i: int)
    ensures Kept(h, g).None? <==> forall j :: 0 <= j < |h| ==> h[j].group != g
    ensures Kept(h, g).Some? ==> Newest(h, i, g) && Kept(h, g).value == DeltaOf(h[i])
  {
    i := 0;
    if h != [] {
      var n := |h| - 1;
      i := KeptIsNewest(h[..n], g);
      if Kept(h, g) != Kept(h[..n], g) {
        i := n;
      }
    }
  }

  /** More updates never lower the epoch of a group, and leave it alone unless they raise it. */
  lemma {:induction false} EpochsGrow(h: seq<ScheduleState>, more: seq<ScheduleState>, g: nat)
    requires Kept(h, g).Some?
    ensures Kept(h + more, g).Some?
    ensures Kept(h + more, g) == Kept(h, g) || Kept(h + more, g).value.epoch > Kept(h, g).value.epoch
  {
    if more == [] {
      assert h + more == h;
    } else {
      var n := |more| - 1;
      EpochsGrow(h, more[..n], g);
      assert (h + more)[..|h| + n] == h + more[..n];
    }
  }

  /** The view says of each node what the groups say together, and nothing else is in it. */
  ghost predicate Consistent(raw: map<nat, GroupDelta>, view: map<nat, int>) {
    && (forall n :: At(view, n) == Total(Nets(raw, n)))
    && Total(view) == Total(Moves(raw))
  }

  /** The groups in `todo` are still to be added to the view. */
  ghost predicate Partial(raw: map<nat, GroupDelta>, todo: map<nat, GroupDelta>, view: map<nat, int>) {
    && (forall n :: At(view, n) + Total(Nets(todo, n)) == Total(Nets(raw, n)))
    && Total(view) + Total(Moves(todo)) == Total(Moves(raw))
  }

  lemma TakeGroup(todo: map<nat, GroupDelta>, g: nat, n: nat)
    requires g in todo
    ensures Total(Nets(todo, n)) == Net(todo[g], n) + Total(Nets(todo - {g}, n))
    ensures Total(Moves(todo)) == |todo[g].incoming| - |todo[g].outgoing| + Total(Moves(todo - {g}))
  {
    TotalAny(Nets(todo, n), g);
    TotalAny(Moves(todo), g);
    assert Nets(todo, n) - {g} == Nets(todo - {g}, n);
    assert Moves(todo) - {g} == Moves(todo - {g});
  }

  /** Groups stay, and an epoch only grows, or else nothing about its group has changed. */
  ghost predicate Newer(a: map<nat, GroupDelta>, b: map<nat, GroupDelta>) {
    forall g :: g in a ==> g in b && (b[g] == a[g] || a[g].epoch < b[g].epoch)
  }

  class Stats {
    var raw: map<nat, GroupDelta>
    var nodeView: map<nat, int>
    var jobDelta: map<nat, int>

    constructor ()
      ensures Reflects([]) && jobDelta == map[]
    {
      raw, nodeView, jobDelta := map[], map[], map[];
    }

    /** The tables say what the states received since the last reset say. */
    ghost predicate Reflects(h: seq<ScheduleState>)
      reads this
    {
      RawReflects(h) && Consistent(raw, nodeView)
    }

    ghost predicate RawReflects(h: seq<ScheduleState>)
      reads this`raw
    {
      forall g :: (if g in raw then Some(raw[g]) else None) == Kept(h, g)
    }

    /** `reset`, when a root leader starts or steps down. */
    method Reset()
      modifies this
      ensures Reflects([]) && jobDelta == map[]
    {
      raw, nodeView, jobDelta := map[], map[], map[];
    }

    /** `replace_state`: a state counts only with a newer epoch than the one known. */
    method ReplaceState(updates: seq<ScheduleState>, ghost h: seq<ScheduleState>) returns (updated: bool)
      requires RawReflects(h)
      modifies this`raw
      ensures RawReflects(h + updates)
      ensures updated <==> raw != old(raw)
    {
      updated := false;
      assert h + updates[..0] == h;
      for i := 0 to |updates|
        invariant RawReflects(h + updates[..i])
        invariant !updated ==> raw == old(raw)
        invariant Newer(old(raw), raw) && (updated ==> raw != old(raw))
      {
        var s := updates[i];
        ghost var p, q := h + updates[..i], h + updates[..i + 1];
        assert q[..|p|] == p && q[|p|] == s;
        assert (if s.group in raw then Some(raw[s.group]) else None) == Kept(p, s.group);
        ghost var was := raw;
        if s.group in raw {
          if raw[s.group].epoch < s.epoch {
            raw := raw[s.group := DeltaOf(s)];
            updated := true;
          }
        } else {
          raw := raw[s.group := DeltaOf(s)];
          updated := true;
        }
        forall g ensures (if g in raw then Some(raw[g]) else None) == Kept(q, g) {
          assert (if g in was then Some(was[g]) else None) == Kept(p, g);
        }
      }
      assert updates[..|updates|] == updates;
    }

    /** `rebuild_view`: the groups are visited in whatever order the map yields them. */
    method RebuildView()
      modifies this`nodeView
      ensures Consistent(raw, nodeView)
    {
      hide Partial, Total, Nets, Moves, Net;
      var view: map<nat, int> := map[];
      var todo := raw;
      NothingDone(raw);
      while todo != map[]
        invariant Partial(raw, todo, view)
        decreases |todo|
      {
        var g :| g in todo;
        var next := AddGroup(view, todo[g]);
        PartialStep(raw, todo, g, view, next);
        view, todo := next, todo - {g};
      }
      NothingLeft(raw, view);
      nodeView := view;
    }

    /** `handle_update`: the view is rebuilt only when some state was replaced. */
    method HandleUpdate(updates: seq<ScheduleState>, jobs: Option<map<nat, int>>, ghost h: seq<ScheduleState>)
      requires Reflects(h)
      modifies this
      ensures Reflects(h + updates)
      ensures jobDelta == if jobs.Some? then jobs.value else old(jobDelta)
    {
      if updates != [] {
        var updated := ReplaceState(updates, h);
        if updated {
          RebuildView();
        }
      } else {
        assert h + updates == h;
      }
      if jobs.Some? {
        jobDelta := jobs.value;
      }
    }

    /** `get_node_delta`. */
    method GetNodeDelta(n: nat, ghost h: seq<ScheduleState>) returns (delta: int)
      requires Reflects(h)
      ensures delta == Total(Nets(raw, n)) + At(jobDelta, n)
    {
      delta := 0;
      if n in nodeView { delta := delta + nodeView[n]; }
      if n in jobDelta { delta := delta + jobDelta[n]; }
      assert At(nodeView, n) == Total(Nets(raw, n));
    }
  }

  function Signed(added: bool, k: nat): int {
    if added then k else 0 - k
  }

  /** Each replica in the list counts once on its node. */
  method AddAll(view: map<nat, int>, nodes: seq<nat>, added: bool) returns (r: map<nat, int>)
    ensures forall n :: At(r, n) == At(view, n) + Signed(added, Count(nodes, n))
    ensures Total(r) == Total(view) + Signed(added, |nodes|)
  {
    hide Total;
    r := view;
    for i := 0 to |nodes|
      invariant forall n :: At(r, n) == At(view, n) + Signed(added, Count(nodes[..i], n))
      invariant Total(r) == Total(view) + Signed(added, i)
    {
      assert nodes[..i + 1][..i] == nodes[..i];
      BumpTotal(r, nodes[i], Signed(added, 1));
      r := Bump(r, nodes[i], Signed(added, 1));
    }
    assert nodes[..|nodes|] == nodes;
  }

  /** The replicas of one group. */
  method AddGroup(view: map<nat, int>, d: GroupDelta) returns (r: map<nat, int>)
    ensures forall n :: At(r, n) == At(view, n) + Net(d, n)
    ensures Total(r) == Total(view) + |d.incoming| - |d.outgoing|
  {
    r := AddAll(view, d.incoming, true);
    r := AddAll(r, d.outgoing, false);
  }

  lemma NothingDone(raw: map<nat, GroupDelta>)
    ensures Partial(raw, raw, map[])
  {
  }

  lemma PartialStep(raw: map<nat, GroupDelta>, todo: map<nat, GroupDelta>, g: nat, view: map<nat, int>, next: map<nat, int>)
    requires g in todo && Partial(raw, todo, view)
    requires forall n :: At(next, n) == At(view, n) + Net(todo[g], n)
    requires Total(next) == Total(view) + |todo[g].incoming| - |todo[g].outgoing|
    ensures Partial(raw, todo - {g}, next)
  {
    hide Total, Nets, Moves, Net;
    forall n ensures At(next, n) + Total(Nets(todo - {g}, n)) == Total(Nets(raw, n)) {
      TakeGroup(todo, g, n);
      assert At(view, n) + Total(Nets(todo, n)) == Total(Nets(raw, n));
    }
    TakeGroup(todo, g, 0);
  }

  lemma NothingLeft(raw: map<nat, GroupDelta>, view: map<nat, int>)
    requires Partial(raw, map[], view)
    ensures Consistent(raw, view)
  {
  }
}
