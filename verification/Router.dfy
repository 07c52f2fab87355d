/** The client's routing table (client/src/rpc/router.rs): an index from shard to group, kept up to
    date from the root's event stream. */
module Router {
  import opened Options
  import opened Bytes
  import opened ShardRange

  datatype Replica = Replica(id: nat, nodeId: nat)
  datatype GroupDesc = GroupDesc(id: nat, epoch: nat, shards: seq<Shard>, replicas: seq<Replica>)
  datatype ReplicaState = ReplicaState(replicaId: nat, term: nat, leads: bool)
  datatype GroupState = GroupState(groupId: nat, leaderId: Option<nat>, replicas: seq<ReplicaState>)
  datatype RouterGroup = RouterGroup(id: nat, epoch: nat, leader: Option<(nat, nat)>, replicas: map<nat, Replica>)

  datatype Event =
    | GroupEvent(desc: GroupDesc)
    | StateEvent(state: GroupState)

  function Get<K, V>(m: map<K, V>, k: K): Option<V> {
    if k in m then Some(m[k]) else None
  }

  // ---- What a stream of events says ----

  predicate Contains(desc: GroupDesc, s: nat) {
    exists i :: 0 <= i < |desc.shards| && desc.shards[i].id == s
  }

  /** The last descriptor received for a group. */
  function Latest(h: seq<Event>, g: nat): (r: Option<GroupDesc>)
    ensures r.Some? ==> r.value.id == g && GroupEvent(r.value) in h
    ensures r.None? <==> forall i :: 0 <= i < |h| && h[i].GroupEvent? ==> h[i].desc.id != g
  {
    if h == [] then None
    else
      var n := |h| - 1;
      if h[n].GroupEvent? && h[n].desc.id == g then Some(h[n].desc) else Latest(h[..n], g)
  }

  /** The last state received for a group. */
  function LatestState(h: seq<Event>, g: nat): (r: Option<GroupState>)
    ensures r.Some? ==> r.value.groupId == g && StateEvent(r.value) in h
    ensures r.None? <==> forall i :: 0 <= i < |h| && h[i].StateEvent? ==> h[i].state.groupId != g
  {
    if h == [] then None
    else
      var n := |h| - 1;
      if h[n].StateEvent? && h[n].state.groupId == g then Some(h[n].state) else LatestState(h[..n], g)
  }

  /** It is the last one. */
  lemma {:induction false} LatestStateIsLast(h: seq<Event>, g: nat, i: nat)
    requires i < |h| && h[i].StateEvent? && h[i].state.groupId == g
    requires forall j :: i < j < |h| && h[j].StateEvent? ==> h[j].state.groupId != g
    ensures LatestState(h, g) == Some(h[i].state)
  {
    var n := |h| - 1;
    if i < n { LatestStateIsLast(h[..n], g, i); }
  }

  lemma {:induction false} LatestIsLast(h: seq<Event>, g: nat, i: nat)
    requires i < |h| && h[i].GroupEvent? && h[i].desc.id == g
    requires forall j :: i < j < |h| && h[j].GroupEvent? ==> h[j].desc.id != g
    ensures Latest(h, g) == Some(h[i].desc)
  {
    var n := |h| - 1;
    if i < n { LatestIsLast(h[..n], g, i); }
  }

  /** The i-th event is a descriptor that contains shard `s`. */
  predicate Holds(h: seq<Event>, i: int, s: nat)
    requires 0 <= i < |h|
  {
    h[i].GroupEvent? && Contains(h[i].desc, s)
  }

  /** The i-th event is the first of those with the highest epoch among the descriptors that
      contain `s`. */
  ghost predicate Wins(h: seq<Event>, i: int, s: nat) {
    && 0 <= i < |h| && Holds(h, i, s)
    && (forall j :: 0 <= j < |h| && Holds(h, j, s) ==> h[j].desc.epoch <= h[i].desc.epoch)
    && (forall j :: 0 <= j < i && Holds(h, j, s) ==> h[j].desc.epoch < h[i].desc.epoch)
  }

  /** What the root promises of its stream: the epoch of a group never decreases, and an epoch
      fixes the group's shards. */
  ghost predicate Stream(h: seq<Event>) {
    forall i, j :: 0 <= i <= j < |h| && h[i].GroupEvent? && h[j].GroupEvent? && h[i].desc.id == h[j].desc.id ==>
      && h[i].desc.epoch <= h[j].desc.epoch
      && (h[i].desc.epoch == h[j].desc.epoch ==> forall s :: Contains(h[i].desc, s) <==> Contains(h[j].desc, s))
  }

  /** Group `g` is where shard `s` is to be found: its latest descriptor contains the shard, and
      no descriptor of the shard has a higher epoch, or the same one and came before g's. */
  ghost predicate Owner(h: seq<Event>, s: nat, g: nat) {
    && Latest(h, g).Some? && Contains(Latest(h, g).value, s)
    && var epoch := Latest(h, g).value.epoch;
    && forall j :: 0 <= j < |h| && Holds(h, j, s) ==>
         && h[j].desc.epoch <= epoch
         && (h[j].desc.epoch == epoch ==>
               exists i :: 0 <= i <= j && h[i].GroupEvent? && h[i].desc.id == g && h[i].desc.epoch == epoch)
  }

  // ---- The incremental form ----

  /** The entry for a shard that the stream leaves behind. */
  function Claimed(h: seq<Event>, s: nat): Option<(nat, nat)> {
    if h == [] then None
    else
      var n := |h| - 1;
      var before := Claimed(h[..n], s);
      if !Holds(h, n, s) then before
      else if before.Some? && before.value.1 >= h[n].desc.epoch then before
      else Some((h[n].desc.id, h[n].desc.epoch))
  }

  /** The incremental entry is the declared winner, and it is missing only when no descriptor
      contains the shard. */
  lemma {:induction false} ClaimedIsWinner(h: seq<Event>, s: nat) returns (i: int)
    ensures Claimed(h, s).None? <==> forall j :: 0 <= j < |h| ==> !Holds(h, j, s)
    ensures Claimed(h, s).Some? ==> Wins(h, i, s) && Claimed(h, s).value == (h[i].desc.id, h[i].desc.epoch)
  {
    i := 0;
    if h != [] {
      var n := |h| - 1;
      var p := h[..n];
      i := ClaimedIsWinner(p, s);
      forall j | 0 <= j < n ensures Holds(p, j, s) == Holds(h, j, s) { assert p[j] == h[j]; }
      if Claimed(h, s) != Claimed(p, s) { i := n; }
    }
  }

  lemma LatestExists(h: seq<Event>, i: int, g: nat) returns (l: int)
    requires 0 <= i < |h| && h[i].GroupEvent? && h[i].desc.id == g
    ensures Latest(h, g).Some? && i <= l < |h| && h[l] == GroupEvent(Latest(h, g).value)
  {
    var n := |h| - 1;
    if h[n].GroupEvent? && h[n].desc.id == g {
      l := n;
    } else {
      l := LatestExists(h[..n], i, g);
    }
  }

  /** `State::find_group_by_shard` on what the stream left behind. */
  function Found(h: seq<Event>, s: nat): Option<nat> {
    match Claimed(h, s)
    case None => None
    case Some((g, epoch)) =>
      match Latest(h, g)
      case None => None
      case Some(desc) => if desc.epoch > epoch then None else Some(g)
  }

  /** A shard is routed to a group exactly when that group owns it. */
  lemma FoundIsOwner(h: seq<Event>, s: nat, g: nat)
    requires Stream(h)
    ensures Found(h, s) == Some(g) <==> Owner(h, s, g)
  {
    var w := ClaimedIsWinner(h, s);
    if Found(h, s) == Some(g) {
      var l := LatestExists(h, w, g);
    }
    if Owner(h, s, g) {
      var at :| 0 <= at < |h| && h[at] == GroupEvent(Latest(h, g).value);
      assert Holds(h, at, s);
      var i :| 0 <= i <= w && h[i].GroupEvent? && h[i].desc.id == g && h[i].desc.epoch == h[at].desc.epoch;
      assert Holds(h, i, s);
      assert i == w;
    }
  }

  /** At most one group owns a shard, so that a router never has to choose. */
  lemma OwnerUnique(h: seq<Event>, s: nat, g1: nat, g2: nat)
    requires Stream(h) && Owner(h, s, g1) && Owner(h, s, g2)
    ensures g1 == g2
  {
    FoundIsOwner(h, s, g1);
    FoundIsOwner(h, s, g2);
  }

  // ---- Shards of a collection ----

  /** Every shard received so far, in order. */
  function Received(h: seq<Event>): seq<Shard> {
    if h == [] then []
    else
      var n := |h| - 1;
      Received(h[..n]) + if h[n].GroupEvent? then h[n].desc.shards else []
  }

  /** The list without the shards of one id (`retain`). */
  function Without(shards: seq<Shard>, id: nat): (r: seq<Shard>)
    ensures forall x :: x in r <==> x in shards && x.id != id
    ensures Distinct(shards) ==> Distinct(r)
  {
    if shards == [] then []
    else
      var rest := Without(shards[1..], id);
      assert shards == [shards[0]] + shards[1..];
      if shards[0].id == id then rest else [shards[0]] + rest
  }

  /** At most one shard per id. */
  predicate Distinct(shards: seq<Shard>) {
    forall i, j :: 0 <= i < j < |shards| ==> shards[i].id != shards[j].id
  }

  /** The list a collection is left with after receiving `shards` one by one. */
  function Listed(shards: seq<Shard>, c: nat): seq<Shard> {
    if shards == [] then []
    else
      var n := |shards| - 1;
      var before := Listed(shards[..n], c);
      if shards[n].collection == c then Without(before, shards[n].id) + [shards[n]] else before
  }

  /** Position `i` is the last of the shards with its id in its collection. */
  ghost predicate LastOfId(shards: seq<Shard>, i: int) {
    && 0 <= i < |shards|
    && forall j :: i < j < |shards| && shards[j].collection == shards[i].collection ==> shards[j].id != shards[i].id
  }

  /** The list of a collection holds each of its shards once, as it was last received. */
  lemma {:induction false} ListedIsLast(shards: seq<Shard>, c: nat)
    ensures Distinct(Listed(shards, c))
    ensures forall x :: x in Listed(shards, c) <==>
                          exists i :: LastOfId(shards, i) && shards[i] == x && x.collection == c
  {
    if shards != [] {
      var n := |shards| - 1;
      var p, last := shards[..n], shards[n];
      ListedIsLast(p, c);
      forall i | 0 <= i < n
        ensures LastOfId(shards, i) <==> LastOfId(p, i) && !(last.collection == p[i].collection && last.id == p[i].id)
      {
        assert forall j :: i < j < n ==> p[j] == shards[j];
      }
      assert LastOfId(shards, n);
      forall x
        ensures x in Listed(shards, c) <==> exists i :: LastOfId(shards, i) && shards[i] == x && x.collection == c
      {
        ListedStep(shards, c, x);
      }
    }
  }

  lemma ListedStep(shards: seq<Shard>, c: nat, x: Shard)
    requires shards != []
    requires var p := shards[..|shards| - 1];
      && (x in Listed(p, c) <==> exists i :: LastOfId(p, i) && p[i] == x && x.collection == c)
      && (forall i :: 0 <= i < |p| ==>
            (LastOfId(shards, i) <==>
             LastOfId(p, i) && !(shards[|p|].collection == p[i].collection && shards[|p|].id == p[i].id)))
      && LastOfId(shards, |p|)
    ensures x in Listed(shards, c) <==> exists i :: LastOfId(shards, i) && shards[i] == x && x.collection == c
  {
  }

  // ---- Leaders ----

  /** The i-th candidate has the newest term, and none after it has the same. */
  ghost predicate LastNewest(cs: seq<ReplicaState>, i: int) {
    && 0 <= i < |cs| && cs[i].leads
    && (forall j :: 0 <= j < |cs| && cs[j].leads ==> cs[j].term <= cs[i].term)
    && (forall j :: i < j < |cs| && cs[j].leads ==> cs[j].term < cs[i].term)
  }

  /** The replicas that claim to lead, stably sorted by term, and the last of them. */
  function NewestLeader(cs: seq<ReplicaState>): Option<ReplicaState> {
    if cs == [] then None
    else
      var n := |cs| - 1;
      var r := NewestLeader(cs[..n]);
      if cs[n].leads && (r.None? || r.value.term <= cs[n].term) then Some(cs[n]) else r
  }

  lemma {:induction false} NewestLeaderIs(cs: seq<ReplicaState>) returns (i: int)
    ensures NewestLeader(cs).None? <==> forall j :: 0 <= j < |cs| ==> !cs[j].leads
    ensures NewestLeader(cs).Some? ==> LastNewest(cs, i) && cs[i] == NewestLeader(cs).value
  {
    i := 0;
    if cs != [] {
      var n := |cs| - 1;
      i := NewestLeaderIs(cs[..n]);
      if NewestLeader(cs) != NewestLeader(cs[..n])
         || (NewestLeader(cs).Some? && cs[n].leads && cs[n].term == NewestLeader(cs).value.term) {
        i := n;
      }
    }
  }

  /** `leader_state`. */
  function LeaderState(gs: GroupState): Option<(nat, nat)> {
    var leader := NewestLeader(gs.replicas);
    if gs.leaderId.None? || leader.None? then None else Some((leader.value.replicaId, leader.value.term))
  }

  /** The leader of a group is the replica that claims to lead with the newest term, the last of
      equals; there is none exactly if the state names no leader or no replica claims to lead. */
  lemma LeaderStateIs(gs: GroupState)
    ensures LeaderState(gs).None? <==>
            gs.leaderId.None? || forall j :: 0 <= j < |gs.replicas| ==> !gs.replicas[j].leads
    ensures LeaderState(gs).Some? ==>
              exists i :: LastNewest(gs.replicas, i)
                          && LeaderState(gs).value == (gs.replicas[i].replicaId, gs.replicas[i].term)
  {
    var i := NewestLeaderIs(gs.replicas);
  }

  /** What the router knows about a group: its latest descriptor with its latest leader. */
  function Known(h: seq<Event>, g: nat): Option<RouterGroup> {
    match Latest(h, g)
    case None => None
    case Some(desc) => Some(RouterGroup(g, desc.epoch, LatestLeader(h, g), ById(desc.replicas)))
  }

  function LatestLeader(h: seq<Event>, g: nat): Option<(nat, nat)> {
    match LatestState(h, g) case None => None case Some(gs) => LeaderState(gs)
  }

  function ById(rs: seq<Replica>): map<nat, Replica> {
    if rs == [] then map[] else ById(rs[..|rs| - 1])[rs[|rs| - 1].id := rs[|rs| - 1]]
  }

  ghost predicate LastReplica(rs: seq<Replica>, i: int, id: nat) {
    0 <= i < |rs| && rs[i].id == id && forall j :: i < j < |rs| ==> rs[j].id != id
  }

  lemma {:induction false} ByIdIsLast(rs: seq<Replica>, id: nat) returns (i: int)
    ensures id in ById(rs) <==> exists j :: 0 <= j < |rs| && rs[j].id == id
    ensures id in ById(rs) ==> LastReplica(rs, i, id) && ById(rs)[id] == rs[i]
  {
    i := 0;
    if rs != [] {
      var n := |rs| - 1;
      i := ByIdIsLast(rs[..n], id);
      if rs[n].id == id { i := n; }
    }
  }

  /** What the router says of a group: the epoch and the replicas of its latest descriptor, each replica
      under its id, with the leader of the latest state; nothing before the first descriptor. */
  lemma KnownIs(h: seq<Event>, g: nat, id: nat)
    ensures Known(h, g).None? <==> Latest(h, g).None?
    ensures Known(h, g).Some? ==>
              var known, desc := Known(h, g).value, Latest(h, g).value;
              && known.id == desc.id == g && known.epoch == desc.epoch
              && (id in known.replicas <==> exists j :: 0 <= j < |desc.replicas| && desc.replicas[j].id == id)
              && (id in known.replicas ==>
                    exists i :: LastReplica(desc.replicas, i, id) && known.replicas[id] == desc.replicas[i])
              && (LatestState(h, g).None? ==> known.leader.None?)
              && (LatestState(h, g).Some? ==> known.leader == LeaderState(LatestState(h, g).value))
  {
    if Known(h, g).Some? { var i := ByIdIsLast(Latest(h, g).value.replicas, id); }
  }

  function ListOf(m: map<nat, seq<Shard>>, c: nat): seq<Shard> {
    if c in m then m[c] else []
  }

  /** A descriptor of which only the first `k` shards have been looked at. */
  function Partly(desc: GroupDesc, k: nat): Event
    requires k <= |desc.shards|
  {
    GroupEvent(desc.(shards := desc.shards[..k]))
  }

  /** An epoch-guarded claim of a shard. */
  function Claim(entry: Option<(nat, nat)>, g: nat, epoch: nat): Option<(nat, nat)> {
    if entry.None? || entry.value.1 < epoch then Some((g, epoch)) else entry
  }

  lemma ClaimStep(h: seq<Event>, desc: GroupDesc, k: nat, s: nat)
    requires k < |desc.shards|
    ensures Claimed(h + [Partly(desc, k + 1)], s) ==
            var entry := Claimed(h + [Partly(desc, k)], s);
            if s == desc.shards[k].id then Claim(entry, desc.id, desc.epoch) else entry
  {
  }

  lemma ClaimNothing(h: seq<Event>, desc: GroupDesc, s: nat)
    ensures Claimed(h + [Partly(desc, 0)], s) == Claimed(h, s)
  {
  }

  lemma ListStep(all: seq<Shard>, some: seq<Shard>, k: nat, c: nat)
    requires k < |some|
    ensures Listed(all + some[..k + 1], c) ==
            var before := Listed(all + some[..k], c);
            if some[k].collection == c then Without(before, some[k].id) + [some[k]] else before
  {
    var t := all + some[..k + 1];
    assert t[..|t| - 1] == all + some[..k];
  }

  lemma WithoutNothing(id: nat)
    ensures Without([], id) == []
  {
  }

  lemma EventExtends(h: seq<Event>, e: Event, g: nat)
    ensures Latest(h + [e], g) == if e.GroupEvent? && e.desc.id == g then Some(e.desc) else Latest(h, g)
    ensures LatestState(h + [e], g) == if e.StateEvent? && e.state.groupId == g then Some(e.state) else LatestState(h, g)
    ensures Received(h + [e]) == Received(h) + if e.GroupEvent? then e.desc.shards else []
    ensures e.StateEvent? ==> Claimed(h + [e], g) == Claimed(h, g)
  {
  }

  class State {
    var shards: map<nat, (nat, nat)>
    var groups: map<nat, RouterGroup>
    var collections: map<nat, seq<Shard>>
    var cached: map<nat, GroupState>

    constructor ()
      ensures Reflects([])
    {
      shards, groups, collections, cached := map[], map[], map[], map[];
    }

    /** The tables say what the events say. */
    ghost predicate Reflects(h: seq<Event>)
      reads this
    {
      && ShardsReflect(h)
      && GroupsReflect(h)
      && CollectionsReflect(Received(h))
    }

    ghost predicate ShardsReflect(h: seq<Event>)
      reads this`shards
    {
      forall s :: Get(shards, s) == Claimed(h, s)
    }

    ghost predicate CollectionsReflect(received: seq<Shard>)
      reads this`collections
    {
      forall c :: ListOf(collections, c) == Listed(received, c)
    }

    /** A state that arrives before the first descriptor of its group waits in `cached`. */
    ghost predicate GroupsReflect(h: seq<Event>)
      reads this`groups, this`cached
    {
      && (forall g :: Get(groups, g) == Known(h, g))
      && (forall g :: Get(cached, g) == if Latest(h, g).Some? then None else LatestState(h, g))
    }

    /** `find_group_by_shard`. */
    method FindGroupByShard(s: nat, ghost h: seq<Event>) returns (r: Option<RouterGroup>)
      requires Reflects(h)
      ensures r.Some? ==> Found(h, s) == Some(r.value.id) && r == Known(h, r.value.id)
      ensures r.None? ==> Found(h, s) == None
      ensures Stream(h) ==> forall g :: Owner(h, s, g) <==> r.Some? && r.value.id == g
    {
      assert Get(shards, s) == Claimed(h, s);
      r := None;
      if s in shards {
        var (g, epoch) := shards[s];
        assert Get(groups, g) == Known(h, g);
        if g in groups && !(groups[g].epoch > epoch) {
          r := Some(groups[g]);
        }
      }
      if Stream(h) {
        forall g ensures Owner(h, s, g) <==> r.Some? && r.value.id == g { FoundIsOwner(h, s, g); }
      }
    }

    /** A `GroupState` event of `apply_update_event`. */
    method ApplyGroupState(gs: GroupState, ghost h: seq<Event>)
      requires Reflects(h)
      modifies this`groups, this`cached
      ensures Reflects(h + [StateEvent(gs)])
    {
      hide Claimed, Latest, LatestState, Received, LeaderState, Listed;
      var id := gs.groupId;
      assert Get(groups, id) == Known(h, id);
      if id in groups {
        groups := groups[id := groups[id].(leader := LeaderState(gs))];
      } else {
        cached := cached[id := gs];
      }
      ghost var h' := h + [StateEvent(gs)];
      EventExtends(h, StateEvent(gs), id);
      assert Received(h') == Received(h);
      forall g
        ensures Get(groups, g) == Known(h', g)
        ensures Get(cached, g) == if Latest(h', g).Some? then None else LatestState(h', g)
      {
        EventExtends(h, StateEvent(gs), g);
        assert Get(old(groups), g) == Known(h, g);
        assert Get(old(cached), g) == if Latest(h, g).Some? then None else LatestState(h, g);
      }
      forall s ensures Get(shards, s) == Claimed(h', s) { EventExtends(h, StateEvent(gs), s); }
    }

    /** `apply_group_descriptor`. */
    method ApplyGroupDescriptor(desc: GroupDesc, ghost h: seq<Event>)
      requires Reflects(h)
      modifies this
      ensures Reflects(h + [GroupEvent(desc)])
    {
      RegisterGroup(desc, h);
      ghost var all := Received(h);
      forall s { ClaimNothing(h, desc, s); }
      assert all + desc.shards[..0] == all;
      for k := 0 to |desc.shards|
        invariant ShardsReflect(h + [Partly(desc, k)])
        invariant CollectionsReflect(all + desc.shards[..k])
        invariant GroupsReflect(h + [GroupEvent(desc)])
      {
        RegisterShard(desc, k, h, all);
      }
      assert Partly(desc, |desc.shards|) == GroupEvent(desc);
      assert desc.shards[..|desc.shards|] == desc.shards;
      EventExtends(h, GroupEvent(desc), desc.id);
    }

    /** The group itself: a leader learnt earlier is kept, or taken from the cached state. */
    method RegisterGroup(desc: GroupDesc, ghost h: seq<Event>)
      requires GroupsReflect(h)
      modifies this`groups, this`cached
      ensures GroupsReflect(h + [GroupEvent(desc)])
    {
      hide Latest, LatestState, Received, LeaderState;
      var id := desc.id;
      assert Get(groups, id) == Known(h, id);
      assert Get(cached, id) == if Latest(h, id).Some? then None else LatestState(h, id);
      var leader: Option<(nat, nat)> := None;
      if id in groups {
        leader := groups[id].leader;
      } else if id in cached {
        leader := LeaderState(cached[id]);
        cached := cached - {id};
      }
      groups := groups[id := RouterGroup(id, desc.epoch, leader, ById(desc.replicas))];
      ghost var h' := h + [GroupEvent(desc)];
      forall g
        ensures Get(groups, g) == Known(h', g)
        ensures Get(cached, g) == if Latest(h', g).Some? then None else LatestState(h', g)
      {
        EventExtends(h, GroupEvent(desc), g);
        assert Get(old(groups), g) == Known(h, g);
        assert Get(old(cached), g) == if Latest(h, g).Some? then None else LatestState(h, g);
      }
    }

    /** One shard of a descriptor: claimed under the epoch guard, and listed in its collection. */
    method RegisterShard(desc: GroupDesc, k: nat, ghost h: seq<Event>, ghost all: seq<Shard>)
      requires k < |desc.shards|
      requires ShardsReflect(h + [Partly(desc, k)])
      requires CollectionsReflect(all + desc.shards[..k])
      modifies this`shards, this`collections
      ensures ShardsReflect(h + [Partly(desc, k + 1)])
      ensures CollectionsReflect(all + desc.shards[..k + 1])
    {
      hide Claimed, Listed, Without;
      var shard := desc.shards[k];
      WithoutNothing(shard.id);
      assert Get(shards, shard.id) == Claimed(h + [Partly(desc, k)], shard.id);
      if shard.id !in shards || shards[shard.id].1 < desc.epoch {
        shards := shards[shard.id := (desc.id, desc.epoch)];
      }
      var c := shard.collection;
      assert ListOf(collections, c) == Listed(all + desc.shards[..k], c);
      if c !in collections {
        collections := collections[c := [shard]];
      } else {
        collections := collections[c := Without(collections[c], shard.id) + [shard]];
      }
      forall s ensures Get(shards, s) == Claimed(h + [Partly(desc, k + 1)], s) {
        ClaimStep(h, desc, k, s);
        assert Get(old(shards), s) == Claimed(h + [Partly(desc, k)], s);
      }
      forall c ensures ListOf(collections, c) == Listed(all + desc.shards[..k + 1], c) {
        ListStep(all, desc.shards, k, c);
        assert ListOf(old(collections), c) == Listed(all + desc.shards[..k], c);
      }
    }

    /** `watch_events`: after any stream of events the tables are what the stream says. */
    method Watch(events: seq<Event>, ghost h: seq<Event>)
      requires Reflects(h)
      modifies this
      ensures Reflects(h + events)
    {
      assert h + events[..0] == h;
      for k := 0 to |events|
        invariant Reflects(h + events[..k])
      {
        assert h + events[..k] + [events[k]] == h + events[..k + 1];
        match events[k] {
          case GroupEvent(desc) => ApplyGroupDescriptor(desc, h + events[..k]);
          case StateEvent(gs) => ApplyGroupState(gs, h + events[..k]);
        }
      }
      assert events[..|events|] == events;
    }

    /** `find_shard`: the first shard of the collection that passes the test decides; without an
        owner for it nothing is found. */
    method FindShard(collection: nat, key: ByteString, ghost h: seq<Event>) returns (r: Option<(RouterGroup, Shard)>)
      requires Reflects(h)
      ensures var list := Listed(Received(h), collection);
              var n := FirstPassing(list, key);
              if n < |list| && Found(h, list[n].id).Some?
              then r.Some? && Some(r.value.0) == Known(h, Found(h, list[n].id).value) && r.value.1 == list[n]
              else r == None
    {
      assert ListOf(collections, collection) == Listed(Received(h), collection);
      r := None;
      if collection in collections {
        var list := collections[collection];
        for i := 0 to |list|
          invariant forall j :: 0 <= j < i ==> !Passes(list[j], key)
        {
          if Passes(list[i], key) {
            var group := FindGroupByShard(list[i].id, h);
            r := if group.Some? then Some((group.value, list[i])) else None;
            return;
          }
        }
      }
    }
  }

  /** Position of the first shard that passes, or the end of the list. */
  function FirstPassing(list: seq<Shard>, key: ByteString): (n: nat)
    ensures n <= |list| && forall j :: 0 <= j < n ==> !Passes(list[j], key)
    ensures n < |list| ==> Passes(list[n], key)
  {
    if list == [] || Passes(list[0], key) then 0 else 1 + FirstPassing(list[1..], key)
  }

  /** The range test of `find_shard`. */
  predicate Passes(shard: Shard, key: ByteString) {
    && shard.range.Some?
    && !Less(key, shard.range.value.0)
    && (Less(shard.range.value.1, key) || shard.range.value.1 == [])
  }

  /** The test of `find_shard` agrees with `belong_to` exactly for shards without a range or
      without an end, and for keys below the start or equal to the end. */
  lemma PassesIffBelongs(shard: Shard, key: ByteString)
    ensures Passes(shard, key) == BelongsTo(shard, key) <==>
            || shard.range.None? || shard.range.value.1 == []
            || Less(key, shard.range.value.0) || key == shard.range.value.1
  {
    if shard.range.Some? {
      var (start, end) := shard.range.value;
      LessTotal(start, key);
      LessTotal(end, key);
      LessIrreflexive(key);
      if Less(key, start) { LessAsymmetric(key, start); }
      if Less(key, end) { LessAsymmetric(key, end); }
    }
  }

  /** In a collection split in two at one byte, every key above the split belongs to the upper shard
      and `find_shard` settles on the lower one. */
  lemma SplitMisroutes(split: Byte, key: ByteString)
    requires Less([split], key)
    ensures var low, high := Shard(1, 1, Some(([], [split]))), Shard(2, 1, Some(([split], [])));
            FirstPassing([low, high], key) == 0 && BelongsTo(high, key) && !BelongsTo(low, key)
  {
    LessAsymmetric([split], key);
  }
}
